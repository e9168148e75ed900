// Which tables each iterator can be followed by, and the columns that a chained pair of tables shares.

module ChainChoices {
  import opened Objects
  import opened Expressions
  import opened SquashJoins

  // The tables that the rule chains after an iterator.
  function Followers(iter: Iter): set<Table> {
    match iter
    case NoIter => {Repositories, Remotes, References, RefCommits, Commits, CommitTrees, TreeEntries, CommitBlobs, CommitFiles}
    case ReposIter => {Remotes, References, RefCommits, Commits, CommitTrees, TreeEntries, Blobs}
    case RemotesIter => {References}
    case RefsIter => {RefCommits, Commits, CommitTrees, CommitBlobs, CommitFiles}
    case RefCommitsIter => {Commits, CommitTrees, TreeEntries, CommitBlobs, CommitFiles}
    case CommitsIter => {Commits, CommitTrees, TreeEntries, CommitBlobs, CommitFiles}
    case TreesIter => {TreeEntries}
    case TreeEntriesIter => {Blobs}
    case BlobsIter => {Blobs}
    case FilesIter => {Blobs, Files}
    case LastIter => {}
  }

  // What an iterator over the rows of a table offers to the next one.
  function OffersOf(t: Table): Iter {
    match t
    case Repositories => ReposIter
    case Remotes => RemotesIter
    case References => RefsIter
    case RefCommits => RefCommitsIter
    case Commits => CommitsIter
    case CommitTrees => TreesIter
    case TreeEntries => TreeEntriesIter
    case CommitBlobs => BlobsIter
    case CommitFiles => FilesIter
    case _ => LastIter
  }

  // A table is chained exactly after these iterators; a second table of repositories is refused and any
  // other table is left to an ordinary join. A link adds its table, but for commit_trees after
  // repositories, and makes the iterator of what it adds; blobs can be followed by blobs.
  lemma ChainedIff(iter: Iter, t: Table)
    ensures Choose(iter, t).Chain? <==> t in Followers(iter)
    ensures Choose(iter, t).Invalid? <==> t == Repositories && iter != NoIter
    ensures Choose(iter, t).Chain? ==>
              var link, next := Choose(iter, t).link, Choose(iter, t).next;
              && Added(link) == (if (iter, t) == (ReposIter, CommitTrees) then TreeEntries else t)
              && (link.Alone? <==> iter == NoIter)
              && next == if t == Blobs && iter != FilesIter then BlobsIter else OffersOf(Added(link))
  {}

  // Chained tables are joined on columns that both have.
  lemma ChainedOnCommonColumns(iter: Iter, t: Table)
    requires Choose(iter, t).Chain? && Choose(iter, t).link.Joined?
    ensures var link := Choose(iter, t).link;
            && JoinColumns(link.left, link.right) != []
            && forall name :: name in JoinColumns(link.left, link.right) ==>
                 name in Columns(link.left) && name in Columns(link.right)
  {
    var link := Choose(iter, t).link;
    CommonColumns(link.left, link.right);
  }

  lemma CommonColumns(l: Table, r: Table)
    ensures forall name :: name in JoinColumns(l, r) ==> name in Columns(l) && name in Columns(r)
  {
    forall name | name in JoinColumns(l, r) ensures name in Columns(l) && name in Columns(r) {
      HasColumn(l, name);
      HasColumn(r, name);
    }
  }

  // The columns that joins are on, by the tables that have them.
  lemma HasColumn(t: Table, name: Column)
    ensures name == RepositoryId ==> name in Columns(t)
    ensures name == RefName && t in {References, RefCommits} ==> name in Columns(t)
    ensures name == CommitHash && t in {References, RefCommits, Commits, CommitTrees, CommitBlobs, CommitFiles} ==>
              name in Columns(t)
    ensures name == TreeHash && t in {Commits, CommitTrees, TreeEntries, CommitFiles, Files} ==> name in Columns(t)
    ensures name == BlobHash && t in {TreeEntries, CommitBlobs, CommitFiles, Blobs, Files} ==> name in Columns(t)
    ensures name == FilePath && t in {CommitFiles, Files} ==> name in Columns(t)
  {
    var cs := Columns(t);
    assert cs[0] == RepositoryId;
    assert t == References ==> cs[1] == RefName && cs[2] == CommitHash;
    assert t == RefCommits ==> cs[1] == CommitHash && cs[2] == RefName;
    assert t == Commits ==> cs[1] == CommitHash && cs[9] == TreeHash;
    assert t == CommitTrees ==> cs[1] == CommitHash && cs[2] == TreeHash;
    assert t == TreeEntries ==> cs[2] == BlobHash && cs[3] == TreeHash;
    assert t == CommitBlobs ==> cs[1] == CommitHash && cs[2] == BlobHash;
    assert t == CommitFiles ==> cs[1] == CommitHash && cs[2] == FilePath && cs[3] == BlobHash && cs[4] == TreeHash;
    assert t == Blobs ==> cs[1] == BlobHash;
    assert t == Files ==> cs[1] == FilePath && cs[2] == BlobHash && cs[3] == TreeHash;
  }

  // The tables r that are joined to l on this column when they are chained after it.
  function JoinedOn(l: Table, name: Column): set<Table> {
    match name
    case RepositoryId =>
      if l == Repositories then {Remotes, References, RefCommits, Commits, TreeEntries, Blobs}
      else if l == Remotes then {References} else {}
    case RefName => if l == References then {RefCommits} else {}
    case CommitHash =>
      if l == References then {RefCommits, Commits, CommitTrees, CommitBlobs, CommitFiles}
      else if l == RefCommits then {Commits, CommitTrees, CommitBlobs, CommitFiles}
      else if l == Commits then {CommitTrees, CommitBlobs, CommitFiles} else {}
    case TreeHash =>
      if l == Commits then {CommitTrees, TreeEntries}
      else if l == CommitTrees then {TreeEntries}
      else if l == CommitFiles then {Files} else {}
    case BlobHash =>
      if l == TreeEntries || l == CommitBlobs then {Blobs} else if l == CommitFiles then {Blobs, Files} else {}
    case FilePath => if l == CommitFiles then {Files} else {}
    case _ => {}
  }

  // The rule takes an equality of a column for redundant between exactly these tables.
  lemma JoinColumnIff(l: Table, r: Table, name: Column)
    ensures name in JoinColumns(l, r) <==> r in JoinedOn(l, name)
  {}
}
