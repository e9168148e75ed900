// Commits selected by their hashes, which are looked up one by one instead of being walked to.

module CommitSelection {
  import opened Objects
  import opened Tables
  import opened JoinFacts
  import CommitWalk

  // A hash that is no commit is passed over, whether or not git errors are skipped.
  function ByHash(repo: Repository, hashes: seq<Hash>): seq<CommitWalk.Item> {
    if hashes == [] then []
    else (if IsCommit(repo, hashes[0]) then [CommitWalk.Emit(hashes[0])] else []) + ByHash(repo, hashes[1..])
  }

  class CommitsByHashIter {
    const repo: Repository
    const hashes: seq<Hash>
    var pos: nat

    ghost predicate Ready()
      reads this
    {
      pos <= |hashes|
    }

    ghost function Remaining(): seq<CommitWalk.Item>
      requires Ready()
      reads this
    {
      ByHash(repo, hashes[pos..])
    }

    constructor (repo: Repository, hashes: seq<Hash>)
      ensures Ready() && this.repo == repo && Remaining() == ByHash(repo, hashes)
    {
      this.repo, this.hashes, pos := repo, hashes, 0;
    }

    // None stands for the end.
    method Next() returns (r: Option<CommitWalk.Item>)
      requires Ready()
      modifies this
      ensures Ready() && TakesFirst(old(Remaining()), r, Remaining())
      ensures r.Some? ==> r.value.Emit? && IsCommit(repo, r.value.commit)
    {
      while pos < |hashes|
        invariant Ready() && Remaining() == old(Remaining())
      {
        var h := hashes[pos];
        assert hashes[pos..][1..] == hashes[pos + 1..];
        pos := pos + 1;
        if IsCommit(repo, h) {
          return Some(CommitWalk.Emit(h));
        }
        assert [] + ByHash(repo, hashes[pos..]) == ByHash(repo, hashes[pos..]);
      }
      return None;
    }
  }

  // The results to read commits from: a walk, or a lookup if there are hashes to select.
  function Selected(repo: Repository, skip: bool, hashes: seq<Hash>): seq<CommitWalk.Item> {
    if hashes == [] then CommitWalk.AllCommits(repo, skip) else ByHash(repo, hashes)
  }

  class SelectedCommitsIter {
    const repo: Repository
    const walk: CommitWalk.CommitIter?
    const lookup: CommitsByHashIter?

    ghost function Repr(): set<object> {
      (if walk == null then {} else {walk}) + if lookup == null then {} else {lookup}
    }

    ghost predicate Ready()
      reads Repr()
    {
      && (walk == null <==> lookup != null)
      && (walk != null ==> walk.Ready() && walk.repo == repo)
      && (lookup != null ==> lookup.Ready() && lookup.repo == repo)
    }

    ghost function Remaining(): seq<CommitWalk.Item>
      requires Ready()
      reads Repr()
    {
      if walk != null then walk.Remaining() else lookup.Remaining()
    }

    constructor (repo: Repository, skipGitErrors: bool, hashes: seq<Hash>)
      ensures Ready() && fresh(Repr()) && this.repo == repo && Remaining() == Selected(repo, skipGitErrors, hashes)
    {
      this.repo := repo;
      if |hashes| > 0 {
        walk := null;
        lookup := new CommitsByHashIter(repo, hashes);
      } else {
        walk := new CommitWalk.CommitIter(repo, skipGitErrors);
        lookup := null;
      }
    }

    method Next() returns (r: Option<CommitWalk.Item>)
      requires Ready()
      modifies Repr()
      ensures Ready() && TakesFirst(old(Remaining()), r, Remaining())
      ensures r.Some? && r.value.Emit? ==> IsCommit(repo, r.value.commit)
    {
      if walk != null {
        r := walk.Next();
      } else {
        r := lookup.Next();
      }
    }
  }

  lemma {:induction false} ByHashCounts(repo: Repository, hashes: seq<Hash>, h: Hash)
    ensures multiset(Hashes(ByHash(repo, hashes)))[h] == if IsCommit(repo, h) then multiset(hashes)[h] else 0
  {
    if hashes != [] {
      var first, rest := hashes[0], ByHash(repo, hashes[1..]);
      ByHashCounts(repo, hashes[1..], h);
      assert hashes == [first] + hashes[1..];
      if IsCommit(repo, first) {
        assert ([CommitWalk.Emit(first)] + rest)[1..] == rest;
        assert Hashes(ByHash(repo, hashes)) == [first] + Hashes(rest);
      } else {
        assert [] + rest == rest;
      }
    }
  }

  lemma {:induction false} ByHashFinds(repo: Repository, hashes: seq<Hash>)
    ensures forall item :: item in ByHash(repo, hashes) ==> item.Emit? && IsCommit(repo, item.commit)
  {
    if hashes != [] {
      ByHashFinds(repo, hashes[1..]);
    }
  }

  // The commits of the table that a filter on the hash keeps.
  function Among(cs: seq<Hash>, hashes: seq<Hash>): seq<Hash> {
    if cs == [] then [] else (if cs[0] in hashes then [cs[0]] else []) + Among(cs[1..], hashes)
  }

  lemma {:induction false} AmongCounts(cs: seq<Hash>, hashes: seq<Hash>, h: Hash)
    ensures multiset(Among(cs, hashes))[h] == if h in hashes then multiset(cs)[h] else 0
  {
    if cs != [] {
      AmongCounts(cs[1..], hashes, h);
      assert cs == [cs[0]] + cs[1..];
    }
  }

  // Commits that are looked up are those a filter on the table keeps, each as often, exactly if each of
  // the hashes that is a commit is asked for as often as the table lists it: a commit that no reference
  // reaches is found all the same, and one that is asked for twice is found twice.
  lemma LookupIsExactIff(repo: Repository, hashes: seq<Hash>)
    requires CommitWalk.ParentsAreCommits(repo)
    ensures multiset(Hashes(ByHash(repo, hashes))) == multiset(Among(CommitList(repo), hashes))
            <==> forall h :: h in hashes && IsCommit(repo, h) ==> multiset(hashes)[h] == |CommitWalk.Names(repo, h)|
  {
    var found, kept := Hashes(ByHash(repo, hashes)), Among(CommitList(repo), hashes);
    forall h
      ensures multiset(found)[h] == if IsCommit(repo, h) then multiset(hashes)[h] else 0
      ensures multiset(kept)[h] == if h in hashes && IsCommit(repo, h) then |CommitWalk.Names(repo, h)| else 0
    {
      ByHashCounts(repo, hashes, h);
      AmongCounts(CommitList(repo), hashes, h);
      CommitListCounts(repo, h);
      assert multiset(CommitList(repo))[h] > 0 ==> h in CommitList(repo);
    }
    if multiset(found) == multiset(kept) {
      forall h | h in hashes && IsCommit(repo, h) ensures multiset(hashes)[h] == |CommitWalk.Names(repo, h)| {
        assert multiset(found)[h] == multiset(kept)[h];
      }
    }
    if forall h :: h in hashes && IsCommit(repo, h) ==> multiset(hashes)[h] == |CommitWalk.Names(repo, h)| {
      forall h ensures multiset(found)[h] == multiset(kept)[h] {
        assert h !in hashes ==> multiset(hashes)[h] == 0;
      }
    }
  }
}
