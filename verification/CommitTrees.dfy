// The trees of one commit: a queue of directory frames instead of a recursive walk.

module CommitTrees {
  import opened Objects

  const DIR: nat := 0x4000

  datatype Item = Emit(tree: Hash) | Fail

  datatype Frame = Frame(pos: nat, entries: seq<TreeEntry>)

  predicate IsTree(repo: Repository, h: Hash) {
    h in repo.objects && repo.objects[h].Tree?
  }

  function Entries(repo: Repository, h: Hash): seq<TreeEntry>
    requires IsTree(repo, h)
  {
    repo.objects[h].entries
  }

  // Git names a tree by its content, so a subtree is always strictly below the tree that lists it.
  // `rank` is any numbering that shows it.
  ghost predicate Acyclic(repo: Repository, rank: Hash -> nat) {
    forall h, e :: IsTree(repo, h) && e in Entries(repo, h) && Descends(repo, e) ==> rank(e.hash) < rank(h)
  }

  predicate Descends(repo: Repository, e: TreeEntry) {
    e.mode == DIR && IsTree(repo, e.hash)
  }

  ghost function Height(repo: Repository, rank: Hash -> nat, entries: seq<TreeEntry>): (n: nat)
    ensures forall e :: e in entries && Descends(repo, e) ==> rank(e.hash) < n
  {
    if entries == [] then 0
    else
      var rest := Height(repo, rank, entries[1..]);
      if Descends(repo, entries[0]) && rank(entries[0].hash) >= rest then rank(entries[0].hash) + 1 else rest
  }

  lemma {:induction false} HeightIsLeast(repo: Repository, rank: Hash -> nat, entries: seq<TreeEntry>, n: nat)
    requires forall e :: e in entries && Descends(repo, e) ==> rank(e.hash) < n
    ensures Height(repo, rank, entries) <= n
  {
    if entries != [] {
      assert entries[0] in entries;
      HeightIsLeast(repo, rank, entries[1..], n);
    }
  }

  lemma ChildIsLower(repo: Repository, rank: Hash -> nat, entries: seq<TreeEntry>)
    requires Acyclic(repo, rank) && entries != [] && Descends(repo, entries[0])
    ensures Height(repo, rank, Entries(repo, entries[0].hash)) < Height(repo, rank, entries)
  {
    var child := entries[0].hash;
    assert entries[0] in entries;
    HeightIsLeast(repo, rank, Entries(repo, child), rank(child));
  }

  lemma RestIsNoHigher(repo: Repository, rank: Hash -> nat, entries: seq<TreeEntry>)
    requires entries != []
    ensures Height(repo, rank, entries[1..]) <= Height(repo, rank, entries)
  {}

  // -------------------------------------------------------------------------
  // The recursive walk the plain table makes
  // -------------------------------------------------------------------------

  // Every directory below, depth first, once for each path that leads to it. A directory whose tree
  // is missing is an error, or nothing when git errors are skipped; a tree in `seen` is left out.
  ghost function Below(repo: Repository, rank: Hash -> nat, skip: bool, seen: set<Hash>, entries: seq<TreeEntry>): seq<Item>
    requires Acyclic(repo, rank)
    decreases Height(repo, rank, entries), |entries|
  {
    if entries == [] then []
    else
      var e := entries[0];
      RestIsNoHigher(repo, rank, entries);
      var rest := Below(repo, rank, skip, seen, entries[1..]);
      if e.mode != DIR then rest
      else if !IsTree(repo, e.hash) then (if skip then [] else [Fail]) + rest
      else if e.hash in seen then rest
      else
        ChildIsLower(repo, rank, entries);
        [Emit(e.hash)] + Below(repo, rank, skip, seen, Entries(repo, e.hash)) + rest
  }

  // -------------------------------------------------------------------------
  // The queue
  // -------------------------------------------------------------------------

  ghost function Weight(repo: Repository, rank: Hash -> nat, entries: seq<TreeEntry>): nat
    requires Acyclic(repo, rank)
    decreases Height(repo, rank, entries), |entries|
  {
    if entries == [] then 0
    else
      RestIsNoHigher(repo, rank, entries);
      var rest := Weight(repo, rank, entries[1..]);
      if Descends(repo, entries[0]) then
        ChildIsLower(repo, rank, entries);
        2 + Weight(repo, rank, Entries(repo, entries[0].hash)) + rest
      else 1 + rest
  }

  function Left(f: Frame): seq<TreeEntry> {
    if f.pos <= |f.entries| then f.entries[f.pos..] else []
  }

  ghost function Work(repo: Repository, rank: Hash -> nat, stack: seq<Frame>): nat
    requires Acyclic(repo, rank)
  {
    if stack == [] then 0 else 1 + Weight(repo, rank, Left(stack[0])) + Work(repo, rank, stack[1..])
  }

  lemma {:induction false} WorkAppend(repo: Repository, rank: Hash -> nat, stack: seq<Frame>, f: Frame)
    requires Acyclic(repo, rank)
    ensures Work(repo, rank, stack + [f]) == Work(repo, rank, stack) + 1 + Weight(repo, rank, Left(f))
  {
    if stack == [] {
      assert (stack + [f])[1..] == [];
    } else {
      WorkAppend(repo, rank, stack[1..], f);
      assert (stack + [f])[1..] == stack[1..] + [f];
    }
  }

  // What one pass through the inner loop returns, and the queue it leaves.
  function Turn(repo: Repository, skip: bool, seen: set<Hash>, stack: seq<Frame>): (Option<Item>, seq<Frame>)
    requires stack != []
  {
    var frame := stack[0];
    if frame.pos >= |frame.entries| then (None, stack[1..])
    else
      var e := frame.entries[frame.pos];
      var moved := stack[0 := frame.(pos := frame.pos + 1)];
      if e.mode != DIR then (None, moved)
      else if !IsTree(repo, e.hash) then (if skip then None else Some(Fail), moved)
      else if e.hash in seen then (None, moved)
      else (Some(Emit(e.hash)),
            if |Entries(repo, e.hash)| > 0 then moved + [Frame(0, Entries(repo, e.hash))] else moved)
  }

  lemma TurnShrinks(repo: Repository, rank: Hash -> nat, skip: bool, seen: set<Hash>, stack: seq<Frame>)
    requires Acyclic(repo, rank) && stack != []
    ensures Work(repo, rank, Turn(repo, skip, seen, stack).1) < Work(repo, rank, stack)
  {
    var frame := stack[0];
    if frame.pos < |frame.entries| {
      var e := frame.entries[frame.pos];
      var moved := stack[0 := frame.(pos := frame.pos + 1)];
      assert moved[1..] == stack[1..];
      assert Left(moved[0]) == Left(frame)[1..];
      if Descends(repo, e) {
        var child := Frame(0, Entries(repo, e.hash));
        WorkAppend(repo, rank, moved, child);
        assert Left(child) == child.entries;
      }
    }
  }

  // Everything the queue returns from here on.
  ghost function Drain(repo: Repository, rank: Hash -> nat, skip: bool, seen: set<Hash>, stack: seq<Frame>): seq<Item>
    requires Acyclic(repo, rank)
    decreases Work(repo, rank, stack)
  {
    if stack == [] then []
    else
      TurnShrinks(repo, rank, skip, seen, stack);
      var (item, next) := Turn(repo, skip, seen, stack);
      (if item.Some? then [item.value] else []) + Drain(repo, rank, skip, seen, next)
  }

  // -------------------------------------------------------------------------
  // The queue returns what the recursive walk returns
  // -------------------------------------------------------------------------

  ghost function BelowAll(repo: Repository, rank: Hash -> nat, skip: bool, seen: set<Hash>, stack: seq<Frame>): multiset<Item>
    requires Acyclic(repo, rank)
  {
    if stack == [] then multiset{}
    else multiset(Below(repo, rank, skip, seen, Left(stack[0]))) + BelowAll(repo, rank, skip, seen, stack[1..])
  }

  lemma {:induction false} BelowAllAppend(repo: Repository, rank: Hash -> nat, skip: bool, seen: set<Hash>,
                                          stack: seq<Frame>, f: Frame)
    requires Acyclic(repo, rank)
    ensures BelowAll(repo, rank, skip, seen, stack + [f])
            == BelowAll(repo, rank, skip, seen, stack) + multiset(Below(repo, rank, skip, seen, Left(f)))
  {
    if stack == [] {
      assert (stack + [f])[1..] == [];
    } else {
      BelowAllAppend(repo, rank, skip, seen, stack[1..], f);
      assert (stack + [f])[1..] == stack[1..] + [f];
    }
  }

  lemma BelowHead(repo: Repository, rank: Hash -> nat, skip: bool, seen: set<Hash>, entries: seq<TreeEntry>)
    requires Acyclic(repo, rank) && entries != []
    ensures multiset(Below(repo, rank, skip, seen, entries)) ==
            multiset(Below(repo, rank, skip, seen, entries[1..])) +
            var e := entries[0];
            if e.mode != DIR || (IsTree(repo, e.hash) && e.hash in seen) then multiset{}
            else if !IsTree(repo, e.hash) then if skip then multiset{} else multiset{Fail}
            else multiset{Emit(e.hash)} + multiset(Below(repo, rank, skip, seen, Entries(repo, e.hash)))
  {}

  // A turn takes exactly what it returns out of what is still to come.
  lemma TurnConserves(repo: Repository, rank: Hash -> nat, skip: bool, seen: set<Hash>, stack: seq<Frame>)
    requires Acyclic(repo, rank) && stack != []
    ensures var (item, next) := Turn(repo, skip, seen, stack);
            BelowAll(repo, rank, skip, seen, stack)
            == (if item.Some? then multiset{item.value} else multiset{}) + BelowAll(repo, rank, skip, seen, next)
  {
    var frame := stack[0];
    if frame.pos >= |frame.entries| {
      assert Left(frame) == [];
    } else {
      var e := frame.entries[frame.pos];
      var moved := stack[0 := frame.(pos := frame.pos + 1)];
      MovedOn(repo, rank, skip, seen, stack);
      if Descends(repo, e) && e.hash !in seen {
        PushConserves(repo, rank, skip, seen, moved, Entries(repo, e.hash));
      }
    }
  }

  // What the entry at hand stands for is taken out when the frame moves on.
  lemma MovedOn(repo: Repository, rank: Hash -> nat, skip: bool, seen: set<Hash>, stack: seq<Frame>)
    requires Acyclic(repo, rank) && stack != [] && stack[0].pos < |stack[0].entries|
    ensures var e := stack[0].entries[stack[0].pos];
            BelowAll(repo, rank, skip, seen, stack)
            == BelowAll(repo, rank, skip, seen, stack[0 := stack[0].(pos := stack[0].pos + 1)])
               + if e.mode != DIR || (IsTree(repo, e.hash) && e.hash in seen) then multiset{}
                 else if !IsTree(repo, e.hash) then if skip then multiset{} else multiset{Fail}
                 else multiset{Emit(e.hash)} + multiset(Below(repo, rank, skip, seen, Entries(repo, e.hash)))
  {
    var frame := stack[0];
    var moved := stack[0 := frame.(pos := frame.pos + 1)];
    assert Left(moved[0]) == Left(frame)[1..] && Left(frame)[0] == frame.entries[frame.pos] && moved[1..] == stack[1..];
    BelowHead(repo, rank, skip, seen, Left(frame));
  }

  lemma PushConserves(repo: Repository, rank: Hash -> nat, skip: bool, seen: set<Hash>, stack: seq<Frame>,
                      entries: seq<TreeEntry>)
    requires Acyclic(repo, rank)
    ensures BelowAll(repo, rank, skip, seen, if |entries| > 0 then stack + [Frame(0, entries)] else stack)
            == BelowAll(repo, rank, skip, seen, stack) + multiset(Below(repo, rank, skip, seen, entries))
  {
    if |entries| > 0 {
      assert Left(Frame(0, entries)) == entries;
      BelowAllAppend(repo, rank, skip, seen, stack, Frame(0, entries));
    }
  }

  lemma {:induction false} DrainIsBelow(repo: Repository, rank: Hash -> nat, skip: bool, seen: set<Hash>, stack: seq<Frame>)
    requires Acyclic(repo, rank)
    ensures multiset(Drain(repo, rank, skip, seen, stack)) == BelowAll(repo, rank, skip, seen, stack)
    decreases Work(repo, rank, stack)
  {
    if stack != [] {
      TurnShrinks(repo, rank, skip, seen, stack);
      TurnConserves(repo, rank, skip, seen, stack);
      DrainIsBelow(repo, rank, skip, seen, Turn(repo, skip, seen, stack).1);
    }
  }

  // The results of draining a fresh iterator over the tree `root` of a commit.
  ghost function TreesOf(repo: Repository, rank: Hash -> nat, skip: bool, seen: set<Hash>, root: Hash): seq<Item>
    requires Acyclic(repo, rank) && IsTree(repo, root)
  {
    if root in seen then []
    else [Emit(root)] + Drain(repo, rank, skip, seen, [Frame(0, Entries(repo, root))])
  }

  // The root once, and every directory below it once for each path that leads to it: what the
  // recursive walk of the plain table lists, in another order.
  lemma TreesAreUnfolded(repo: Repository, rank: Hash -> nat, skip: bool, root: Hash)
    requires Acyclic(repo, rank) && IsTree(repo, root)
    ensures multiset(TreesOf(repo, rank, skip, {}, root))
            == multiset([Emit(root)] + Below(repo, rank, skip, {}, Entries(repo, root)))
  {
    var stack := [Frame(0, Entries(repo, root))];
    DrainIsBelow(repo, rank, skip, {}, stack);
    assert stack[1..] == [] && Left(stack[0]) == Entries(repo, root);
  }

  // -------------------------------------------------------------------------
  // The iterator
  // -------------------------------------------------------------------------

  class CommitTreeIter {
    const repo: Repository
    const skipGitErrors: bool
    const seen: set<Hash>
    ghost const rank: Hash -> nat
    var tree: Option<Hash>
    var stack: seq<Frame>

    ghost predicate Ready()
      reads this
    {
      Acyclic(repo, rank)
    }

    // The results the iterator has yet to return.
    ghost function Remaining(): seq<Item>
      requires Ready()
      reads this
    {
      (if tree.Some? then [Emit(tree.value)] else []) + Drain(repo, rank, skipGitErrors, seen, stack)
    }

    constructor (repo: Repository, root: Hash, seen: set<Hash>, skipGitErrors: bool, ghost rank: Hash -> nat)
      requires IsTree(repo, root) && Acyclic(repo, rank)
      ensures this.repo == repo && this.rank == rank && Ready()
      ensures Remaining() == TreesOf(repo, rank, skipGitErrors, seen, root)
    {
      this.repo, this.skipGitErrors, this.seen, this.rank := repo, skipGitErrors, seen, rank;
      if root in seen {
        tree, stack := None, [];
      } else {
        tree, stack := Some(root), [Frame(0, repo.objects[root].entries)];
      }
    }

    // None stands for the end of the walk.
    method Next() returns (r: Option<Item>)
      requires Ready()
      modifies this
      ensures Ready()
      ensures old(Remaining()) == [] ==> r == None && Remaining() == []
      ensures old(Remaining()) != [] ==> r == Some(old(Remaining())[0]) && Remaining() == old(Remaining())[1..]
    {
      if tree.Some? {
        r := Some(Emit(tree.value));
        tree := None;
        assert Remaining() == old(Remaining())[1..];
        return;
      }
      while |stack| > 0
        invariant tree == None && Remaining() == old(Remaining())
        decreases Work(repo, rank, stack)
      {
        TurnShrinks(repo, rank, skipGitErrors, seen, stack);
        r := ServeFrame();
        if r.Some? {
          return;
        }
      }
      r := None;
    }

    // Serves one entry of the oldest frame, or drops the frame when it is used up.
    method ServeFrame() returns (r: Option<Item>)
      requires |stack| > 0
      modifies this`stack
      ensures (r, stack) == Turn(repo, skipGitErrors, seen, old(stack))
    {
      var frame := stack[0];
      if frame.pos >= |frame.entries| {
        stack := stack[1..];
        return None;
      }
      var entry := frame.entries[frame.pos];
      stack := stack[0 := frame.(pos := frame.pos + 1)];
      if entry.mode != DIR {
        return None;
      }
      if !IsTree(repo, entry.hash) {
        return if skipGitErrors then None else Some(Fail);
      }
      if entry.hash in seen {
        return None;
      }
      var entries := repo.objects[entry.hash].entries;
      if |entries| > 0 {
        stack := stack + [Frame(0, entries)];
      }
      return Some(Emit(entry.hash));
    }
  }
}
