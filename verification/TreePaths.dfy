// How often a tree of a commit is returned: once for each directory path that leads to it.

module TreePaths {
  import opened Objects
  import opened CommitTrees

  // git's mode of a directory is octal 40000. A path is the positions of the entries it takes.
  ghost predicate Leads(repo: Repository, seen: set<Hash>, h: Hash, path: seq<nat>, t: Hash)
    decreases |path|
  {
    && h in repo.objects && repo.objects[h].Tree? && h !in seen
    && if path == [] then h == t else Enters(repo, seen, repo.objects[h].entries, path, t)
  }

  // The path enters one of these entries.
  ghost predicate Enters(repo: Repository, seen: set<Hash>, entries: seq<TreeEntry>, path: seq<nat>, t: Hash)
    requires path != []
    decreases |path|, 0
  {
    && path[0] < |entries| && entries[path[0]].mode == 0x4000
    && Leads(repo, seen, entries[path[0]].hash, path[1..], t)
  }

  // The path ends at a directory whose tree is not stored.
  ghost predicate Dangles(repo: Repository, seen: set<Hash>, entries: seq<TreeEntry>, path: seq<nat>)
    requires path != []
    decreases |path|
  {
    path[0] < |entries| && entries[path[0]].mode == 0x4000 &&
    var h := entries[path[0]].hash;
    if |path| == 1 then !(h in repo.objects && repo.objects[h].Tree?)
    else h in repo.objects && repo.objects[h].Tree? && h !in seen && Dangles(repo, seen, repo.objects[h].entries, path[1..])
  }

  // -------------------------------------------------------------------------
  // Sets of paths
  // -------------------------------------------------------------------------

  ghost function Behind(i: nat, paths: set<seq<nat>>): set<seq<nat>> {
    set p | p in paths :: [i] + p
  }

  lemma {:induction false} BehindSize(i: nat, paths: set<seq<nat>>)
    ensures |Behind(i, paths)| == |paths|
    decreases |paths|
  {
    if paths != {} {
      var p :| p in paths;
      var rest := paths - {p};
      BehindSize(i, rest);
      BehindHas(i, rest, [i] + p);
      assert ([i] + p)[1..] == p;
      assert Behind(i, paths) == Behind(i, rest) + {[i] + p};
    }
  }

  lemma BehindHas(i: nat, paths: set<seq<nat>>, p: seq<nat>)
    ensures p in Behind(i, paths) <==> p != [] && p[0] == i && p[1..] in paths
  {
    if p != [] && p[0] == i {
      assert p == [i] + p[1..];
    }
    assert forall q :: ([i] + q)[1..] == q;
  }

  // The same in the first of two disjoint sets.
  lemma SizeOfBoth(a: set<seq<nat>>, b: set<seq<nat>>)
    requires a !! b
    ensures |a + b| == |a| + |b|
  {}

  // -------------------------------------------------------------------------
  // Trees
  // -------------------------------------------------------------------------

  // The paths that enter entry m or a later one.
  ghost predicate AreEntering(repo: Repository, seen: set<Hash>, entries: seq<TreeEntry>, m: nat, t: Hash, paths: set<seq<nat>>) {
    forall p: seq<nat> :: p in paths <==> p != [] && p[0] >= m && Enters(repo, seen, entries, p, t)
  }

  ghost predicate AreLeading(repo: Repository, seen: set<Hash>, h: Hash, t: Hash, paths: set<seq<nat>>) {
    forall p: seq<nat> :: p in paths <==> Leads(repo, seen, h, p, t)
  }

  // From all entries of a tree to the tree itself.
  lemma LeadingPaths(repo: Repository, seen: set<Hash>, h: Hash, t: Hash, entering: set<seq<nat>>) returns (paths: set<seq<nat>>)
    requires IsTree(repo, h) && h !in seen && AreEntering(repo, seen, Entries(repo, h), 0, t, entering)
    ensures AreLeading(repo, seen, h, t, paths) && |paths| == |entering| + if h == t then 1 else 0
  {
    paths := entering + if h == t then {[]} else {};
    SizeOfBoth(entering, if h == t then {[]} else {});
  }

  // One entry and the later ones.
  lemma EnteringPaths(repo: Repository, seen: set<Hash>, entries: seq<TreeEntry>, m: nat, t: Hash, leading: set<seq<nat>>,
                      later: set<seq<nat>>)
    returns (paths: set<seq<nat>>)
    requires m < |entries| && AreEntering(repo, seen, entries, m + 1, t, later)
    requires if entries[m].mode == 0x4000 then AreLeading(repo, seen, entries[m].hash, t, leading) else leading == {}
    ensures AreEntering(repo, seen, entries, m, t, paths) && |paths| == |leading| + |later|
  {
    paths := Behind(m, leading) + later;
    BehindSize(m, leading);
    forall p: seq<nat> ensures p in Behind(m, leading) <==> p != [] && p[0] == m && Enters(repo, seen, entries, p, t) {
      BehindHas(m, leading, p);
    }
    SizeOfBoth(Behind(m, leading), later);
  }

  lemma NoneLeads(repo: Repository, seen: set<Hash>, h: Hash, t: Hash)
    requires !IsTree(repo, h) || h in seen
    ensures AreLeading(repo, seen, h, t, {})
  {}

  lemma RestOf(entries: seq<TreeEntry>, m: nat)
    requires m < |entries|
    ensures entries[m..][0] == entries[m] && entries[m..][1..] == entries[m + 1..]
  {}

  lemma {:induction false} BelowPerPath(repo: Repository, rank: Hash -> nat, skip: bool, seen: set<Hash>,
                                        entries: seq<TreeEntry>, m: nat, t: Hash)
    returns (paths: set<seq<nat>>)
    requires Acyclic(repo, rank) && m <= |entries|
    ensures AreEntering(repo, seen, entries, m, t, paths)
    ensures multiset(Below(repo, rank, skip, seen, entries[m..]))[Emit(t)] == |paths|
    decreases Height(repo, rank, entries[m..]), |entries| - m
  {
    if m == |entries| {
      paths := {};
    } else {
      var e := entries[m];
      RestOf(entries, m);
      RestIsNoHigher(repo, rank, entries[m..]);
      var later := BelowPerPath(repo, rank, skip, seen, entries, m + 1, t);
      BelowHead(repo, rank, skip, seen, entries[m..]);
      var leading := {};
      if e.mode == 0x4000 && IsTree(repo, e.hash) && e.hash !in seen {
        ChildIsLower(repo, rank, entries[m..]);
        var child := Entries(repo, e.hash);
        assert child[0..] == child;
        var below := BelowPerPath(repo, rank, skip, seen, child, 0, t);
        leading := LeadingPaths(repo, seen, e.hash, t, below);
      } else if e.mode == 0x4000 {
        NoneLeads(repo, seen, e.hash, t);
      }
      paths := EnteringPaths(repo, seen, entries, m, t, leading, later);
    }
  }

  lemma DrainCounts(repo: Repository, rank: Hash -> nat, skip: bool, seen: set<Hash>, root: Hash)
    requires Acyclic(repo, rank) && IsTree(repo, root) && root !in seen
    ensures multiset(TreesOf(repo, rank, skip, seen, root))
            == multiset{Emit(root)} + multiset(Below(repo, rank, skip, seen, Entries(repo, root)))
  {
    var stack := [Frame(0, Entries(repo, root))];
    DrainIsBelow(repo, rank, skip, seen, stack);
    assert stack[1..] == [] && Left(stack[0]) == Entries(repo, root);
  }

  // A tree is returned as often as there are directory paths from the root that lead to it and meet no
  // tree to be left out.
  lemma TreesComePerPath(repo: Repository, rank: Hash -> nat, skip: bool, seen: set<Hash>, root: Hash, t: Hash)
    returns (paths: set<seq<nat>>)
    requires Acyclic(repo, rank) && IsTree(repo, root)
    ensures forall p: seq<nat> :: p in paths <==> Leads(repo, seen, root, p, t)
    ensures multiset(TreesOf(repo, rank, skip, seen, root))[Emit(t)] == |paths|
  {
    if root in seen {
      paths := {};
    } else {
      var entries := Entries(repo, root);
      assert entries[0..] == entries;
      var entering := BelowPerPath(repo, rank, skip, seen, entries, 0, t);
      paths := LeadingPaths(repo, seen, root, t, entering);
      DrainCounts(repo, rank, skip, seen, root);
    }
  }

  // The root is returned, and so is the tree of each directory in it.
  lemma TreesOfRootAreReturned(repo: Repository, rank: Hash -> nat, skip: bool, root: Hash, i: nat)
    requires Acyclic(repo, rank) && root in repo.objects && repo.objects[root].Tree?
    ensures Emit(root) in TreesOf(repo, rank, skip, {}, root)
    ensures i < |repo.objects[root].entries| ==>
              var e := repo.objects[root].entries[i];
              e.mode == 0x4000 && e.hash in repo.objects && repo.objects[e.hash].Tree? ==>
                Emit(e.hash) in TreesOf(repo, rank, skip, {}, root)
  {
    var paths := TreesComePerPath(repo, rank, skip, {}, root, root);
    assert Leads(repo, {}, root, [], root);
    assert [] in paths;
    assert |paths| > 0;
    if i < |repo.objects[root].entries| {
      var e := repo.objects[root].entries[i];
      if e.mode == 0x4000 && e.hash in repo.objects && repo.objects[e.hash].Tree? {
        var others := TreesComePerPath(repo, rank, skip, {}, root, e.hash);
        assert [i][1..] == [] && Leads(repo, {}, e.hash, [], e.hash);
        assert Leads(repo, {}, root, [i], e.hash);
        assert [i] in others;
        assert |others| > 0;
      }
    }
  }

  // -------------------------------------------------------------------------
  // Errors
  // -------------------------------------------------------------------------

  ghost predicate AreDangling(repo: Repository, seen: set<Hash>, entries: seq<TreeEntry>, m: nat, paths: set<seq<nat>>) {
    forall p: seq<nat> :: p in paths <==> p != [] && p[0] >= m && Dangles(repo, seen, entries, p)
  }

  // The paths that dangle behind one entry.
  ghost predicate DangleBehind(repo: Repository, seen: set<Hash>, e: TreeEntry, paths: set<seq<nat>>) {
    if e.mode != 0x4000 then paths == {}
    else if !IsTree(repo, e.hash) then paths == {[]}
    else if e.hash in seen then paths == {}
    else AreDangling(repo, seen, Entries(repo, e.hash), 0, paths)
  }

  lemma DanglingPaths(repo: Repository, seen: set<Hash>, entries: seq<TreeEntry>, m: nat, behind: set<seq<nat>>,
                      later: set<seq<nat>>)
    returns (paths: set<seq<nat>>)
    requires m < |entries| && AreDangling(repo, seen, entries, m + 1, later) && DangleBehind(repo, seen, entries[m], behind)
    ensures AreDangling(repo, seen, entries, m, paths) && |paths| == |behind| + |later|
  {
    paths := Behind(m, behind) + later;
    BehindSize(m, behind);
    forall p: seq<nat> ensures p in Behind(m, behind) <==> p != [] && p[0] == m && Dangles(repo, seen, entries, p) {
      BehindHas(m, behind, p);
      if p != [] && p[0] == m {
        assert |p| == 1 <==> p[1..] == [];
      }
    }
    SizeOfBoth(Behind(m, behind), later);
  }

  lemma {:induction false} ErrorsBelow(repo: Repository, rank: Hash -> nat, skip: bool, seen: set<Hash>,
                                       entries: seq<TreeEntry>, m: nat)
    returns (paths: set<seq<nat>>)
    requires Acyclic(repo, rank) && m <= |entries|
    ensures AreDangling(repo, seen, entries, m, paths)
    ensures multiset(Below(repo, rank, skip, seen, entries[m..]))[Fail] == if skip then 0 else |paths|
    decreases Height(repo, rank, entries[m..]), |entries| - m
  {
    if m == |entries| {
      paths := {};
    } else {
      var e := entries[m];
      RestOf(entries, m);
      RestIsNoHigher(repo, rank, entries[m..]);
      var later := ErrorsBelow(repo, rank, skip, seen, entries, m + 1);
      BelowHead(repo, rank, skip, seen, entries[m..]);
      var behind := {};
      if e.mode == 0x4000 && !IsTree(repo, e.hash) {
        behind := {[]};
      } else if e.mode == 0x4000 && e.hash !in seen {
        ChildIsLower(repo, rank, entries[m..]);
        var child := Entries(repo, e.hash);
        assert child[0..] == child;
        behind := ErrorsBelow(repo, rank, skip, seen, child, 0);
      }
      paths := DanglingPaths(repo, seen, entries, m, behind, later);
    }
  }

  // An error comes once for each directory path from the root that ends at a tree that is not stored, or
  // never when git errors are skipped.
  lemma ErrorsComePerPath(repo: Repository, rank: Hash -> nat, skip: bool, seen: set<Hash>, root: Hash)
    returns (paths: set<seq<nat>>)
    requires Acyclic(repo, rank) && root in repo.objects && repo.objects[root].Tree?
    ensures forall p: seq<nat> :: p in paths <==> root !in seen && p != [] && Dangles(repo, seen, repo.objects[root].entries, p)
    ensures multiset(TreesOf(repo, rank, skip, seen, root))[Fail] == if skip then 0 else |paths|
  {
    if root in seen {
      paths := {};
    } else {
      var entries := Entries(repo, root);
      assert entries[0..] == entries;
      paths := ErrorsBelow(repo, rank, skip, seen, entries, 0);
      DrainCounts(repo, rank, skip, seen, root);
    }
  }
}
