// Small repositories on which the exact conditions of the other modules fail, and the answers with them.

module FailingInstances {
  import opened Objects
  import opened Expressions
  import opened SquashJoins
  import opened Tables
  import opened JoinFacts
  import opened ChainStages
  import opened RefHistoryQueries
  import opened RunCounts
  import opened HashJoins
  import opened NarrowedJoins
  import opened CommitSelection
  import CommitTrees
  import CommitWalk
  import MainTrees
  import TreePaths
  import IndexedCommits
  import Packfiles
  import TreeEntries
  import TreeCache
  import Selectors
  import TableIterators

  function RootCommit(s: Signature): Object {
    Commit(Hash(0), [], s, s, "")
  }

  lemma HashRefsOfTwo(a: Reference, b: Reference)
    requires a.HashRef? && b.HashRef?
    ensures HashRefs([a, b]) == [a, b]
  {
    assert [a, b][1..] == [b] && [b][1..] == [];
    assert HashRefs([b]) == [b] + HashRefs([]);
    assert HashRefs([a, b]) == [a] + HashRefs([b]);
  }

  // -------------------------------------------------------------------------
  // Two branches on one commit
  // -------------------------------------------------------------------------

  function TwoBranches(c: Hash, s: Signature): Repository {
    Repository("two", map[c := RootCommit(s)], [HashRef("a", c), HashRef("b", c)], None, map[])
  }

  lemma RefsOfTwoBranches(c: Hash, s: Signature)
    ensures RefList(TwoBranches(c, s)) == [HashRef("a", c), HashRef("b", c)]
    ensures Resolve(TwoBranches(c, s), c) == Found(c)
  {
    HashRefsOfTwo(HashRef("a", c), HashRef("b", c));
    assert [] + [HashRef("a", c), HashRef("b", c)] == [HashRef("a", c), HashRef("b", c)];
  }

  lemma BranchesShare(c: Hash, s: Signature)
    ensures !Solitary(TwoBranches(c, s))
    ensures Lists(TwoBranches(c, s), RefList(TwoBranches(c, s))[1], c)
  {
    var repo := TwoBranches(c, s);
    RefsOfTwoBranches(c, s);
    assert Path(repo, c, c, 0);
    assert Reachable(repo, c, c) && Lists(repo, RefList(repo)[1], c);
    assert RefList(repo)[0].hash == c;
  }

  // Joined on the hash, either branch meets the row of the other as well.
  lemma TwoBranchesFailHashJoin(c: Hash, s: Signature)
    ensures var repo := TwoBranches(c, s);
            Where(RefCommitRows(repo), 1, Digest(c)) != HeadRows(repo, "a", c)
  {
    var repo := TwoBranches(c, s);
    RefsOfTwoBranches(c, s);
    BranchesShare(c, s);
    HashJoinIsExactIff(repo, RefList(repo), 0);
  }

  // So a squashed query that joins refs with ref_commits on the hash alone loses rows here.
  lemma TwoBranchesFailHashQuery(c: Hash, s: Signature, readContent: bool, tables: seq<Table>, f: Expr)
    requires AreTables(tables, BOTH) && JoinsHashes(f)
    ensures var repo := TwoBranches(c, s);
            && !Preserved(repo, readContent, PlainDb(repo, readContent), tables, [f])
            && !AsWritten(repo, readContent, PlainDb(repo, readContent), tables, [f])
  {
    var repo := TwoBranches(c, s);
    BranchesShare(c, s);
    PlainDbIsPlain(repo, readContent);
    HashQueryIsPreservedIff(repo, readContent, PlainDb(repo, readContent), tables, f);
  }

  // -------------------------------------------------------------------------
  // One branch with two commits
  // -------------------------------------------------------------------------

  function TwoCommits(b: Hash, a: Hash, s: Signature): Repository {
    Repository("linear", map[a := RootCommit(s), b := Commit(Hash(0), [a], s, s, "")], [HashRef("master", b)], None, map[])
  }

  lemma TwoCommitsAreWellformed(b: Hash, a: Hash, s: Signature)
    requires a != b
    ensures var repo := TwoCommits(b, a, s);
            && Wellformed(repo) && IsCommit(repo, a) && IsCommit(repo, b) && Reachable(repo, b, a)
            && RefList(repo) == [HashRef("master", b)]
  {
    var repo := TwoCommits(b, a, s);
    assert repo.refs[1..] == [] && HashRefs(repo.refs) == [repo.refs[0]] + HashRefs([]);
    assert [] + [HashRef("master", b)] == [HashRef("master", b)];
    assert repo.objects[b].parents == [a] && a in Parents(repo, b);
    PathStep(repo, b, b, a, 0);
  }

  // refs joined with ref_commits on the name and with commits on the hash of the reference: the node
  // leaves out the older commit.
  lemma TwoCommitsFailNarrowedQuery(b: Hash, a: Hash, s: Signature, readContent: bool, tables: seq<Table>, n: Expr, h: Expr)
    requires a != b && AreTables(tables, HISTORY_TABLES) && SameNames(n) && SameHashes(h)
    ensures var repo := TwoCommits(b, a, s);
            && !Preserved(repo, readContent, PlainDb(repo, readContent), tables, [n, h])
            && !AsWritten(repo, readContent, PlainDb(repo, readContent), tables, [n, h])
  {
    var repo := TwoCommits(b, a, s);
    TwoCommitsAreWellformed(b, a, s);
    PlainDbIsPlain(repo, readContent);
    NarrowedQueryIsPreservedIff(repo, readContent, PlainDb(repo, readContent), tables, n, h);
    assert !IsRootCommit(repo, b);
    assert !Single(repo, 0);
  }

  // -------------------------------------------------------------------------
  // A branch and an annotated tag on one commit
  // -------------------------------------------------------------------------

  function BranchAndTag(c: Hash, t: Hash, s: Signature): Repository {
    Repository("tagged", map[c := RootCommit(s), t := Tag(c)], [HashRef("master", c), HashRef("v1", t)], None, map[])
  }

  lemma TagResolves(c: Hash, t: Hash, s: Signature)
    requires c != t
    ensures var repo := BranchAndTag(c, t, s);
            Resolve(repo, c) == Found(c) && Resolve(repo, t) == Found(c) && CommitWalk.ParentsAreCommits(repo)
  {
    var repo := BranchAndTag(c, t, s);
    assert repo.objects[c] == RootCommit(s) && repo.objects[t] == Tag(c);
    assert ResolveAmong(repo, t, repo.objects.Keys) == ResolveAmong(repo, c, repo.objects.Keys - {t});
    assert forall h :: Parents(repo, h) == [];
  }

  lemma NamesOfTagged(c: Hash, t: Hash, s: Signature)
    requires c != t
    ensures var repo := BranchAndTag(c, t, s);
            |CommitWalk.Names(repo, c)| == 2 && CommitWalk.Crawled(repo, c)
  {
    var repo := BranchAndTag(c, t, s);
    TagResolves(c, t, s);
    assert repo.refs[0].hash == c && repo.refs[1].hash == t;
    assert repo.refs[0] in repo.refs && repo.refs[1] in repo.refs;
    assert CommitWalk.NamedByRef(repo, c) && CommitWalk.NamedByRef(repo, t);
    assert Known(repo) == {c, t};
    assert CommitWalk.Names(repo, c) == {c, t};
    assert CommitWalk.Root(repo, c) && Path(repo, c, c, 0);
  }

  // The commit is listed twice.
  lemma TaggedIsListedTwice(c: Hash, t: Hash, s: Signature, skip: bool)
    requires c != t
    ensures multiset(CommitWalk.AllCommits(BranchAndTag(c, t, s), skip))[CommitWalk.Emit(c)] == 2
  {
    TagResolves(c, t, s);
    NamesOfTagged(c, t, s);
    CommitWalk.CommitsReturnedPerName(BranchAndTag(c, t, s), skip, c);
  }

  // So a join on its hash gives two rows where the chain makes one.
  lemma TaggedFailsCommitJoin(c: Hash, t: Hash, s: Signature)
    requires c != t
    ensures var repo := BranchAndTag(c, t, s); Where(CommitRows(repo), 1, Digest(c)) != [CommitRow(repo, c)]
  {
    TagResolves(c, t, s);
    NamesOfTagged(c, t, s);
    CommitJoinIsExactIff(BranchAndTag(c, t, s), c);
  }

  // The hash of the tag is in no row of its history, but the head row is made for it.
  lemma TaggedFailsHeadHash(c: Hash, t: Hash, s: Signature)
    requires c != t
    ensures var repo := BranchAndTag(c, t, s); Where(HistoryOf(repo, "v1", t), 1, Digest(t)) != HeadRows(repo, "v1", t)
  {
    TagResolves(c, t, s);
    HeadIsRefHashIff(BranchAndTag(c, t, s), "v1", t);
  }

  // -------------------------------------------------------------------------
  // A detached HEAD, which is also listed as a reference
  // -------------------------------------------------------------------------

  function DetachedHead(c: Hash, s: Signature): Repository {
    Repository("detached", map[c := RootCommit(s)], [HashRef("HEAD", c), HashRef("master", c)], Some(c), map[])
  }

  // Joined by name, either HEAD meets the histories of both.
  lemma DetachedFailsHistoryJoin(c: Hash, s: Signature)
    ensures var repo := DetachedHead(c, s);
            && !NamesApart(repo, RefList(repo))
            && Where(RefCommitRows(repo), 2, Text("HEAD")) != HistoryOf(repo, "HEAD", c)
  {
    var repo := DetachedHead(c, s);
    var refs := RefList(repo);
    HashRefsOfTwo(HashRef("HEAD", c), HashRef("master", c));
    assert refs[0] == HashRef("HEAD", c) && refs[1] == HashRef("HEAD", c);
    assert Resolve(repo, c) == Found(c);
    HistoriesAdd(repo, refs, 0, 1);
    HistoryOfNothing(repo, "HEAD", c);
  }

  // -------------------------------------------------------------------------
  // A commit that no reference reaches
  // -------------------------------------------------------------------------

  function Unreached(c: Hash, s: Signature): Repository {
    Repository("unreached", map[c := RootCommit(s)], [], None, map[])
  }

  // Looked up by its hash it is found, though the table does not list it.
  lemma UnreachedFailsLookup(c: Hash, s: Signature)
    ensures var repo := Unreached(c, s);
            multiset(Hashes(ByHash(repo, [c]))) != multiset(Among(CommitList(repo), [c]))
  {
    var repo := Unreached(c, s);
    assert forall h :: !CommitWalk.NamedByRef(repo, h);
    assert CommitWalk.Names(repo, c) == {};
    assert multiset([c])[c] == 1 && c in [c] && IsCommit(repo, c);
    LookupIsExactIff(repo, [c]);
  }

  // -------------------------------------------------------------------------
  // Two packfiles with a tree at one offset
  // -------------------------------------------------------------------------

  function TwoPacks(p: Hash, q: Hash, t: Hash, u: Hash, ts: seq<TreeEntry>, us: seq<TreeEntry>): Packfiles.Pool {
    map["one" := Packfiles.Store(map[t := Tree(ts), u := Tree(us)],
                                 [Packfiles.Pack(p, map[t := 12], map[12 := t]), Packfiles.Pack(q, map[u := 12], map[12 := u])],
                                 {})]
  }

  // The second key is answered from the tree of the first.
  lemma TwoPacksFailOffsets(p: Hash, q: Hash, t: Hash, u: Hash, ts: seq<TreeEntry>, us: seq<TreeEntry>)
    requires p != q && t != u && ts != [] && us != []
    ensures var pool := TwoPacks(p, q, t, u, ts, us);
            var j, k := TreeEntries.Key("one", p, 12, None, 0), TreeEntries.Key("one", q, 12, None, 0);
            && TreeEntries.TreeAt(pool, j) == Some(TreeEntries.Listing(t, ts))
            && TreeEntries.TreeAt(pool, k) == Some(TreeEntries.Listing(u, us))
            && TreeEntries.Cached(pool, [], [j, k], TreeEntries.EMPTY) != TreeEntries.Fresh(pool, [], [j, k])
  {
    var pool := TwoPacks(p, q, t, u, ts, us);
    var j, k := TreeEntries.Key("one", p, 12, None, 0), TreeEntries.Key("one", q, 12, None, 0);
    var packs := pool["one"].packs;
    assert packs[1..][0] == packs[1];
    assert Packfiles.PackNamed(packs, p) == Some(packs[0]) && Packfiles.PackNamed(packs, q) == Some(packs[1]);
    var keys := [j, k];
    TreeCache.OneRepositoryIsNamed(pool, "one", keys);
    TreeCache.OffsetsAreExactIff(pool, keys);
    assert TreeCache.RunStart(keys, 0) == 0 && TreeCache.RunStart(keys, 1) == 0;
    assert !TreeCache.RunAgrees(pool, keys, 1);
  }

  // -------------------------------------------------------------------------
  // Selectors
  // -------------------------------------------------------------------------

  // Asked for two values at once, a column is not restricted at all.
  lemma TwoValuesFailSelectors(v: Value)
    ensures var selectors: seq<Selectors.Selector> := [[Text("a")], [Text("b")]];
            Selectors.Allows(Selectors.TextValues(selectors), v) && !Selectors.InAll(v, selectors)
  {
    var selectors: seq<Selectors.Selector> := [[Text("a")], [Text("b")]];
    assert selectors[1] == [Text("b")] && selectors[0] == [Text("a")];
  }

  // A reference whose name differs from the one asked for in its case is selected.
  lemma OtherCaseFailsNames(h: Hash, lower: string -> string)
    requires lower("Release") == lower("release")
    ensures var w := TableIterators.RefChoice(lower, [], TableIterators.LowerAll(lower, ["release"]));
            var refs := [HashRef("Release", h)];
            TableIterators.Chosen(w, refs) == refs && TableIterators.Named(["release"], refs) == []
  {
    var refs := [HashRef("Release", h)];
    assert refs[1..] == [];
    assert TableIterators.LowerAll(lower, ["release"])[0] == lower("release");
  }

  // -------------------------------------------------------------------------
  // Two commits with one tree
  // -------------------------------------------------------------------------

  function SameTree(b: Hash, a: Hash, t: Hash, s: Signature): Repository {
    Repository("same", map[a := Commit(t, [], s, s, ""), b := Commit(t, [a], s, s, "empty"), t := Tree([])],
               [HashRef("master", b)], None, map[])
  }

  lemma SameTreeIsWellformed(b: Hash, a: Hash, t: Hash, s: Signature)
    requires a != b && t !in {a, b}
    ensures var repo := SameTree(b, a, t, s);
            && Wellformed(repo) && Unambiguous(repo) && CommitWalk.Crawled(repo, a) && CommitWalk.Crawled(repo, b)
  {
    var repo := SameTree(b, a, t, s);
    assert repo.refs[0] in repo.refs && repo.objects[b].parents == [a] && a in Parents(repo, b);
    assert repo.refs[1..] == [] && HashRefs(repo.refs) == [repo.refs[0]] + HashRefs([]);
    assert Resolve(repo, b) == Found(b);
    assert CommitWalk.NamedByRef(repo, b) && CommitWalk.Root(repo, b);
    assert Path(repo, b, b, 0);
    PathStep(repo, b, b, a, 0);
    OneNameEach(b, a, t, s);
  }

  lemma OneNameEach(b: Hash, a: Hash, t: Hash, s: Signature)
    requires a != b && t !in {a, b}
    ensures forall c :: |CommitWalk.Names(SameTree(b, a, t, s), c)| <= 1
  {
    var repo := SameTree(b, a, t, s);
    forall c ensures |CommitWalk.Names(repo, c)| <= 1 {
      forall k | k in CommitWalk.Names(repo, c) ensures k == c {
        assert k in repo.objects && !repo.objects[k].Tag?;
        ResolveFindsCommit(repo, k);
      }
      assert CommitWalk.Names(repo, c) <= {c};
      AtMostOne(CommitWalk.Names(repo, c), c);
    }
  }

  lemma AtMostOne(hashes: set<Hash>, c: Hash)
    requires hashes <= {c}
    ensures |hashes| <= 1
  {
    assert hashes == {} || hashes == {c};
  }

  lemma CrawledIsListed(repo: Repository, c: Hash)
    requires Wellformed(repo) && Unambiguous(repo) && CommitWalk.Crawled(repo, c)
    ensures c in CommitList(repo)
  {
    CommitListCounts(repo, c);
    assert c in multiset(CommitList(repo));
  }

  lemma TreeLeadsToItself(repo: Repository, c: Hash, t: Hash)
    requires IsCommit(repo, c) && TreeOf(repo, c) == t && CommitTrees.IsTree(repo, t)
    ensures MainTrees.LeadsTo(repo, c, t)
  {
    assert TreePaths.Leads(repo, {}, t, [], t);
  }

  // Joined with commit_trees on the hash of the tree alone, the newer commit meets the row of the older
  // one as well; the iterator over main trees leaves it out.
  lemma SameTreeFailsTreeJoin(b: Hash, a: Hash, t: Hash, s: Signature, rank: Hash -> nat)
    requires a != b && t !in {a, b}
    ensures var repo := SameTree(b, a, t, s);
            && CommitTrees.Acyclic(repo, rank) && IsCommit(repo, b) && TreeOf(repo, b) == t
            && Where(MainTrees.CommitTreeRows(repo, rank), 2, Digest(t)) != MainTrees.MainTreeRows(repo, b)
  {
    var repo := SameTree(b, a, t, s);
    SameTreeIsWellformed(b, a, t, s);
    CrawledIsListed(repo, a);
    assert repo.objects[t] == Tree([]) && CommitTrees.IsTree(repo, t);
    TreeLeadsToItself(repo, a, t);
    MainTrees.TreeJoinIsExactIff(repo, rank, b);
  }
}
