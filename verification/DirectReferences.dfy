// Repositories whose references name commits directly, under names of their own.

module DirectReferences {
  import opened Objects
  import opened Expressions
  import opened SquashJoins
  import opened Relations
  import opened Layout
  import opened Tables
  import opened JoinFacts
  import opened ProductRows
  import opened ChainStages
  import opened RefHistoryQueries
  import CommitWalk

  // A reference that leads to a commit holds its hash, and no two references, HEAD included, share a name.
  ghost predicate Direct(repo: Repository) {
    && (forall r :: r in RefList(repo) && Resolve(repo, r.hash).Found? ==> IsCommit(repo, r.hash))
    && (forall i, j :: 0 <= i < j < |RefList(repo)| ==> RefList(repo)[i].name != RefList(repo)[j].name)
  }

  // Then no commit is listed twice and no history is shared.
  lemma DirectIsEnough(repo: Repository)
    requires Wellformed(repo) && Direct(repo)
    ensures Untagged(repo) && Unambiguous(repo) && NamesApart(repo, RefList(repo))
  {
    forall r | r in RefList(repo) && Resolve(repo, r.hash).Found? ensures Resolve(repo, r.hash) == Found(r.hash) {
      ResolveFindsCommit(repo, r.hash);
    }
    forall c ensures |CommitWalk.Names(repo, c)| <= 1 {
      forall t | CommitWalk.NamedByRef(repo, t) && Resolve(repo, t) == Found(c) ensures t == c {
        var r :| r in repo.refs && r.HashRef? && r.hash == t;
        assert r in HashRefs(repo.refs) && r in RefList(repo);
      }
      CommitWalk.AtMostOneName(repo, c);
    }
  }

  // In such a repository a query over refs, ref_commits and commits has to ask for the two equalities
  // and nothing else, whichever way its history is read.
  lemma DirectHistoryQueriesArePreserved(repo: Repository, readContent: bool, db: Db, tables: seq<Table>, filters: seq<Expr>)
    requires Wellformed(repo) && Direct(repo) && Plain(db, repo, readContent)
    requires AreTables(tables, HISTORY_TABLES) && Over(filters, Concat(tables))
    requires Entails(filters, Col(References, RefName), Col(RefCommits, RefName))
    requires Entails(filters, Col(RefCommits, CommitHash), Col(Commits, CommitHash))
    ensures Preserved(repo, readContent, db, tables, filters)
  {
    DirectIsEnough(repo);
    HistoryQueriesArePreserved(repo, readContent, db, tables, filters);
  }

  // One branch with one commit and one file.
  function OneCommit(c: Hash, f: File, author: Signature): Repository {
    Repository("one", map[c := Commit(c, [], author, author, "")], [HashRef("master", c)], None, map[c := [f]])
  }

  function TwoEqualities(): seq<Expr> {
    [Equals(Field(Col(References, RefName), 0), Field(Col(RefCommits, RefName), 0)),
     Equals(Field(Col(RefCommits, CommitHash), 0), Field(Col(Commits, CommitHash), 0))]
  }

  // The conditions can be met.
  lemma ConditionsAreMet(c: Hash, f: File, author: Signature)
    ensures Wellformed(OneCommit(c, f, author)) && Direct(OneCommit(c, f, author))
    ensures Entails(TwoEqualities(), Col(References, RefName), Col(RefCommits, RefName))
    ensures Entails(TwoEqualities(), Col(RefCommits, CommitHash), Col(Commits, CommitHash))
  {
    var repo, fs := OneCommit(c, f, author), TwoEqualities();
    assert repo.refs[1..] == [] && HashRefs(repo.refs) == [repo.refs[0]] + HashRefs([]);
    assert RefList(repo) == [HashRef("master", c)];
    assert IsEq(fs[0], Col(References, RefName), Col(RefCommits, RefName));
    assert IsEq(fs[1], Col(RefCommits, CommitHash), Col(Commits, CommitHash));
    EqualityEntails(fs, Col(References, RefName), Col(RefCommits, RefName));
    EqualityEntails(fs, Col(RefCommits, CommitHash), Col(Commits, CommitHash));
  }
}
