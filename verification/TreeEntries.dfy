// The table of tree_entries: read from the trees, indexed, and read back from the index.

module TreeEntries {
  import opened Objects
  import opened Packfiles

  datatype EntryRow = EntryRow(repository: string, tree: Hash, entry: TreeEntry)

  // A row, a git error, or the crash of an entry that is not there.
  datatype Answer = Row(row: EntryRow) | Failure | Panic

  // Where a tree is and which of its entries is meant. The hash is that of a loose tree.
  datatype Key = Key(repository: string, packfile: Hash, offset: int, hash: Option<Hash>, pos: nat)

  datatype Listing = Listing(hash: Hash, entries: seq<TreeEntry>)

  // -------------------------------------------------------------------------
  // Decoding every key afresh
  // -------------------------------------------------------------------------

  function KeyHash(k: Key): Hash {
    if k.hash.Some? then k.hash.value else ZERO_HASH
  }

  // None is an error: nothing there, or no tree.
  function TreeAt(pool: Pool, k: Key): Option<Listing> {
    match DecodeAt(pool, k.repository, k.packfile, k.offset, KeyHash(k))
    case Decoded(h, Tree(entries)) => Some(Listing(h, entries))
    case _ => None
  }

  function EntryOf(k: Key, tree: Listing): Answer {
    if k.pos < |tree.entries| then Row(EntryRow(k.repository, tree.hash, tree.entries[k.pos])) else Panic
  }

  // After an error the index is closed.
  function Fresh(pool: Pool, hashes: seq<Hash>, keys: seq<Key>): seq<Answer> {
    if keys == [] then []
    else
      match TreeAt(pool, keys[0])
      case None => [Failure]
      case Some(tree) =>
        if hashes != [] && tree.hash !in hashes then Fresh(pool, hashes, keys[1..])
        else if EntryOf(keys[0], tree).Panic? then [Panic]
        else [EntryOf(keys[0], tree)] + Fresh(pool, hashes, keys[1..])
  }

  // -------------------------------------------------------------------------
  // Remembering the last tree
  // -------------------------------------------------------------------------

  datatype Memory = Memory(prevTreeOffset: int, tree: Option<Listing>)

  const EMPTY: Memory := Memory(0, None)

  // The last tree is taken for the tree of this key.
  predicate Hit(m: Memory, k: Key) {
    (m.prevTreeOffset == k.offset && k.offset >= 0) || (m.tree.Some? && k.hash == Some(m.tree.value.hash))
  }

  // What the iterator returns from here on. A missing last tree crashes.
  function Cached(pool: Pool, hashes: seq<Hash>, keys: seq<Key>, m: Memory): seq<Answer> {
    if keys == [] then []
    else
      var k := keys[0];
      if Hit(m, k) then
        if m.tree.None? || EntryOf(k, m.tree.value).Panic? then [Panic]
        else [EntryOf(k, m.tree.value)] + Cached(pool, hashes, keys[1..], m.(prevTreeOffset := k.offset))
      else
        match TreeAt(pool, k)
        case None => [Failure]
        case Some(tree) =>
          if hashes != [] && tree.hash !in hashes then Cached(pool, hashes, keys[1..], m.(tree := Some(tree)))
          else if EntryOf(k, tree).Panic? then [Panic]
          else [EntryOf(k, tree)] + Cached(pool, hashes, keys[1..], Memory(k.offset, Some(tree)))
  }

  class TreeEntriesIndexIter {
    const decoder: ObjectDecoder
    const hashes: seq<Hash>
    var keys: seq<Key>
    var prevTreeOffset: int
    var tree: Option<Listing>

    ghost function Pending(): seq<Answer>
      reads this
    {
      Cached(decoder.pool, hashes, keys, Memory(prevTreeOffset, tree))
    }

    constructor (pool: Pool, hashes: seq<Hash>, keys: seq<Key>)
      ensures decoder.Valid() && fresh(decoder) && Pending() == Cached(pool, hashes, keys, EMPTY)
    {
      this.hashes, this.keys, prevTreeOffset, tree := hashes, keys, 0, None;
      decoder := new ObjectDecoder(pool);
    }

    // None stands for the end. After an error or a crash nothing follows.
    method Next() returns (r: Option<Answer>)
      requires decoder.Valid()
      modifies this, decoder
      ensures decoder.Valid()
      ensures if r.None? then old(Pending()) == [] && Pending() == [] else old(Pending()) == [r.value] + Pending()
    {
      while |keys| > 0
        invariant decoder.Valid() && Pending() == old(Pending())
      {
        var k := keys[0];
        keys := keys[1..];
        if !Hit(Memory(prevTreeOffset, tree), k) {
          var found := decoder.Decode(k.repository, k.packfile, k.offset, KeyHash(k));
          if !found.Decoded? || !found.content.Tree? {
            keys := [];
            return Some(Failure);
          }
          tree := Some(Listing(found.hash, found.content.entries));
          if hashes != [] && found.hash !in hashes {
            continue;
          }
        }
        if tree.None? || k.pos >= |tree.value.entries| {
          keys := [];
          return Some(Panic);
        }
        prevTreeOffset := k.offset;
        return Some(EntryOf(k, tree.value));
      }
      r := None;
    }
  }

  // -------------------------------------------------------------------------
  // When remembering changes nothing
  // -------------------------------------------------------------------------

  // Keys of one repository and one packfile, at offsets above zero, or of trees that are loose.
  ghost predicate Regular(pool: Pool, repository: string, packfile: Hash, k: Key) {
    && k.repository == repository
    && (k.offset >= 0 ==> k.packfile == packfile && k.offset > 0 && k.hash == None)
    && (k.offset < 0 ==> k.hash.Some? && repository in pool && k.hash.value in pool[repository].loose)
  }

  // The hash of the tree stands for these entries.
  predicate Holds(store: Store, t: Listing) {
    Get(store, t.hash) == Decoded(t.hash, Object.Tree(t.entries))
  }

  // The last tree is the one at the last offset, and is what its hash stands for.
  ghost predicate Coherent(pool: Pool, repository: string, packfile: Hash, m: Memory) {
    && (m.prevTreeOffset > 0 ==>
          m.tree.Some? && TreeAt(pool, Key(repository, packfile, m.prevTreeOffset, None, 0)) == m.tree)
    && (m.tree.Some? ==> repository in pool && Holds(pool[repository], m.tree.value))
  }

  lemma TreeAtIs(pool: Pool, k: Key)
    requires TreeAt(pool, k).Some?
    ensures var t := TreeAt(pool, k).value;
            k.repository in pool && Holds(pool[k.repository], t)
            && (k.offset < 0 ==> t.hash == KeyHash(k))
  {}

  // On a hit the last tree is the tree of the key.
  lemma HitIsRight(pool: Pool, repository: string, packfile: Hash, m: Memory, k: Key)
    requires Regular(pool, repository, packfile, k) && Coherent(pool, repository, packfile, m) && Hit(m, k)
    ensures TreeAt(pool, k) == m.tree && m.tree.Some?
  {
    if k.offset >= 0 {
      assert TreeAt(pool, k) == TreeAt(pool, Key(repository, packfile, m.prevTreeOffset, None, 0));
    }
  }

  // Without a selector of hashes, the iterator returns what decoding every key afresh would.
  lemma {:induction false} CacheIsExact(pool: Pool, repository: string, packfile: Hash, keys: seq<Key>, m: Memory)
    requires forall k :: k in keys ==> Regular(pool, repository, packfile, k)
    requires Coherent(pool, repository, packfile, m)
    ensures Cached(pool, [], keys, m) == Fresh(pool, [], keys)
    decreases keys
  {
    if keys != [] {
      var k := keys[0];
      assert k in keys;
      if Hit(m, k) {
        HitIsRight(pool, repository, packfile, m, k);
        if !EntryOf(k, m.tree.value).Panic? {
          Remembers(pool, repository, packfile, k, m.tree.value);
          CacheIsExact(pool, repository, packfile, keys[1..], Memory(k.offset, m.tree));
        }
      } else if TreeAt(pool, k).Some? {
        Remembers(pool, repository, packfile, k, TreeAt(pool, k).value);
        CacheIsExact(pool, repository, packfile, keys[1..], Memory(k.offset, TreeAt(pool, k)));
      }
    }
  }

  lemma Remembers(pool: Pool, repository: string, packfile: Hash, k: Key, tree: Listing)
    requires Regular(pool, repository, packfile, k) && TreeAt(pool, k) == Some(tree)
    ensures Coherent(pool, repository, packfile, Memory(k.offset, Some(tree)))
  {
    TreeAtIs(pool, k);
    if k.offset > 0 {
      assert TreeAt(pool, Key(repository, packfile, k.offset, None, 0)) == TreeAt(pool, k);
    }
  }

  // -------------------------------------------------------------------------
  // From the trees to the index and back
  // -------------------------------------------------------------------------

  // The rows of a tree from an entry on.
  function EntryRows(repository: string, tree: Listing, pos: nat): seq<Answer>
    decreases |tree.entries| - pos
  {
    if pos >= |tree.entries| then []
    else [Row(EntryRow(repository, tree.hash, tree.entries[pos]))] + EntryRows(repository, tree, pos + 1)
  }

  // The rows of the table.
  function TableRows(repository: string, trees: seq<Listing>): seq<Answer> {
    if trees == [] then [] else EntryRows(repository, trees[0], 0) + TableRows(repository, trees[1..])
  }

  function KeyFor(repository: string, tree: Listing, l: Location, pos: nat): Key {
    Key(repository, l.packfile, l.offset, if l.offset < 0 then Some(tree.hash) else None, pos)
  }

  // The key of each entry, or an error if the tree cannot be found.
  function EntryKeys(store: Store, repository: string, tree: Listing, pos: nat): seq<Option<Key>>
    decreases |tree.entries| - pos
  {
    if pos >= |tree.entries| then []
    else
      [match Locate(store, tree.hash) case None => None case Some(l) => Some(KeyFor(repository, tree, l, pos))]
      + EntryKeys(store, repository, tree, pos + 1)
  }

  function TableKeys(store: Store, repository: string, trees: seq<Listing>): seq<Option<Key>> {
    if trees == [] then [] else EntryKeys(store, repository, trees[0], 0) + TableKeys(store, repository, trees[1..])
  }

  function Keys(ks: seq<Option<Key>>): seq<Key> {
    if ks == [] then [] else (if ks[0].Some? then [ks[0].value] else []) + Keys(ks[1..])
  }

  class TreeEntriesRowIter {
    const repository: string
    var trees: seq<Listing>
    var tree: Option<Listing>
    var cursor: nat

    ghost function Pending(): seq<Answer>
      reads this
    {
      (if tree.None? then [] else EntryRows(repository, tree.value, cursor)) + TableRows(repository, trees)
    }

    constructor (repository: string, trees: seq<Listing>)
      ensures Pending() == TableRows(repository, trees)
    {
      this.repository, this.trees, tree, cursor := repository, trees, None, 0;
    }

    // None stands for the end.
    method Next() returns (r: Option<Answer>)
      modifies this
      ensures if r.None? then old(Pending()) == [] && Pending() == [] else old(Pending()) == [r.value] + Pending()
    {
      while true
        invariant Pending() == old(Pending())
        decreases |trees|, if tree.Some? then 1 else 0
      {
        if tree.None? {
          if |trees| == 0 {
            return None;
          }
          tree, trees, cursor := Some(trees[0]), trees[1..], 0;
        }
        if cursor >= |tree.value.entries| {
          tree := None;
          continue;
        }
        r := Some(Row(EntryRow(repository, tree.value.hash, tree.value.entries[cursor])));
        cursor := cursor + 1;
        Associative([r.value], EntryRows(repository, tree.value, cursor), TableRows(repository, trees));
        return;
      }
    }
  }

  class TreeEntriesKeyValueIter {
    const repository: string
    const idx: RepositoryIndex
    var trees: seq<Listing>
    var tree: Option<Listing>
    var pos: nat

    ghost function Pending(): seq<Option<Key>>
      reads this
    {
      (if tree.None? then [] else EntryKeys(idx.store, repository, tree.value, pos)) + TableKeys(idx.store, repository, trees)
    }

    constructor (repository: string, store: Store, trees: seq<Listing>)
      ensures Pending() == TableKeys(store, repository, trees)
    {
      this.repository, this.trees, tree, pos := repository, trees, None, 0;
      idx := new RepositoryIndex(store);
    }

    // The outer None stands for the end, the inner one for an error.
    method Next() returns (r: Option<Option<Key>>)
      modifies this
      ensures if r.None? then old(Pending()) == [] && Pending() == [] else old(Pending()) == [r.value] + Pending()
    {
      while true
        invariant Pending() == old(Pending())
        decreases |trees|, if tree.Some? then 1 else 0
      {
        if tree.None? {
          if |trees| == 0 {
            return None;
          }
          tree, trees, pos := Some(trees[0]), trees[1..], 0;
        }
        if pos >= |tree.value.entries| {
          tree := None;
          continue;
        }
        pos := pos + 1;
        var found := idx.Find(tree.value.hash);
        var key := if found.None? then None else Some(KeyFor(repository, tree.value, found.value, pos - 1));
        Associative([key], EntryKeys(idx.store, repository, tree.value, pos), TableKeys(idx.store, repository, trees));
        return Some(key);
      }
    }
  }

  ghost predicate Stored(store: Store, trees: seq<Listing>) {
    forall t :: t in trees ==> Holds(store, t) && Locate(store, t.hash).Some?
  }

  lemma {:induction false} FreshAppend(pool: Pool, keys: seq<Key>, more: seq<Key>)
    requires forall k :: k in keys ==> TreeAt(pool, k).Some? && k.pos < |TreeAt(pool, k).value.entries|
    ensures Fresh(pool, [], keys + more) == Fresh(pool, [], keys) + Fresh(pool, [], more)
  {
    if keys == [] {
      assert keys + more == more;
    } else {
      assert keys[0] in keys;
      FreshAppend(pool, keys[1..], more);
      assert (keys + more)[1..] == keys[1..] + more;
      Associative([EntryOf(keys[0], TreeAt(pool, keys[0]).value)], Fresh(pool, [], keys[1..]), Fresh(pool, [], more));
    }
  }

  lemma KeyIsOfTree(pool: Pool, repository: string, tree: Listing, pos: nat)
    requires repository in pool && Sound(pool[repository]) && Stored(pool[repository], [tree])
    ensures TreeAt(pool, KeyFor(repository, tree, Locate(pool[repository], tree.hash).value, pos)) == Some(tree)
  {
    var trees := [tree];
    assert trees[0] in trees;
    FindInvertsDecode(pool, repository, tree.hash);
    LooseIsNegative(pool[repository], tree.hash);
  }

  // A packed object has an offset, and a loose one has none.
  lemma LooseIsNegative(store: Store, h: Hash)
    requires Locate(store, h).Some?
    ensures Locate(store, h).value.offset < 0 ==> h in store.loose
  {
    if FindIn(store.packs, h).Some? {
      var k := FoundInPack(store.packs, h);
    }
  }

  // The keys that follow an entry's key decode to the rows that follow its row.
  lemma {:induction false} EntryKeysAreRows(pool: Pool, repository: string, tree: Listing, pos: nat)
    requires repository in pool && Sound(pool[repository]) && Stored(pool[repository], [tree])
    ensures var keys := Keys(EntryKeys(pool[repository], repository, tree, pos));
            && Fresh(pool, [], keys) == EntryRows(repository, tree, pos)
            && forall k :: k in keys ==> TreeAt(pool, k) == Some(tree) && k.pos < |tree.entries|
    decreases |tree.entries| - pos
  {
    if pos < |tree.entries| {
      var l := Located(pool[repository], tree);
      var k, rest := KeyFor(repository, tree, l, pos), EntryKeys(pool[repository], repository, tree, pos + 1);
      EntryKeysAreRows(pool, repository, tree, pos + 1);
      KeyIsOfTree(pool, repository, tree, pos);
      assert ([Some(k)] + rest)[1..] == rest && ([k] + Keys(rest))[1..] == Keys(rest);
    }
  }

  lemma Located(store: Store, tree: Listing) returns (l: Location)
    requires Stored(store, [tree])
    ensures Locate(store, tree.hash) == Some(l)
  {
    var trees := [tree];
    assert trees[0] in trees;
    l := Locate(store, tree.hash).value;
  }

  lemma {:induction false} KeysAppend(a: seq<Option<Key>>, b: seq<Option<Key>>)
    ensures Keys(a + b) == Keys(a) + Keys(b)
  {
    if a == [] {
      assert a + b == b;
    } else {
      KeysAppend(a[1..], b);
      assert (a + b)[1..] == a[1..] + b;
      Associative(if a[0].Some? then [a[0].value] else [], Keys(a[1..]), Keys(b));
    }
  }

  // Decoding the keys of the table's rows gives the rows.
  lemma {:induction false} KeysAreRows(pool: Pool, repository: string, trees: seq<Listing>)
    requires repository in pool && Sound(pool[repository]) && Stored(pool[repository], trees)
    ensures Fresh(pool, [], Keys(TableKeys(pool[repository], repository, trees))) == TableRows(repository, trees)
  {
    if trees != [] {
      var t := trees[0];
      assert t in trees;
      var own, rest := EntryKeys(pool[repository], repository, t, 0), TableKeys(pool[repository], repository, trees[1..]);
      EntryKeysAreRows(pool, repository, t, 0);
      KeysAreRows(pool, repository, trees[1..]);
      KeysAppend(own, rest);
      FreshAppend(pool, Keys(own), Keys(rest));
    }
  }

  // One packfile, with objects at offsets above zero.
  ghost predicate OnePackfile(store: Store, packfile: Hash, trees: seq<Listing>) {
    forall t :: t in trees && Locate(store, t.hash).Some? && Locate(store, t.hash).value.offset >= 0 ==>
      Locate(store, t.hash).value.packfile == packfile && Locate(store, t.hash).value.offset > 0
  }

  // In a repository with one packfile, reading the whole index returns the table.
  lemma IndexIsTable(pool: Pool, repository: string, packfile: Hash, trees: seq<Listing>)
    requires repository in pool && Sound(pool[repository]) && Stored(pool[repository], trees)
    requires OnePackfile(pool[repository], packfile, trees)
    ensures Cached(pool, [], Keys(TableKeys(pool[repository], repository, trees)), EMPTY) == TableRows(repository, trees)
  {
    KeysAreRows(pool, repository, trees);
    KeysAreRegular(pool, repository, packfile, trees);
    CacheIsExact(pool, repository, packfile, Keys(TableKeys(pool[repository], repository, trees)), EMPTY);
  }

  lemma {:induction false} KeysAreRegular(pool: Pool, repository: string, packfile: Hash, trees: seq<Listing>)
    requires repository in pool && OnePackfile(pool[repository], packfile, trees)
    ensures forall k :: k in Keys(TableKeys(pool[repository], repository, trees)) ==> Regular(pool, repository, packfile, k)
  {
    if trees != [] {
      var t := trees[0];
      assert t in trees;
      KeysAreRegular(pool, repository, packfile, trees[1..]);
      EntryKeysAreRegular(pool, repository, packfile, t, 0);
      KeysAppend(EntryKeys(pool[repository], repository, t, 0), TableKeys(pool[repository], repository, trees[1..]));
    }
  }

  lemma {:induction false} EntryKeysAreRegular(pool: Pool, repository: string, packfile: Hash, t: Listing, pos: nat)
    requires repository in pool && OnePackfile(pool[repository], packfile, [t])
    ensures forall k :: k in Keys(EntryKeys(pool[repository], repository, t, pos)) ==> Regular(pool, repository, packfile, k)
    decreases |t.entries| - pos
  {
    if pos < |t.entries| {
      var rest := EntryKeys(pool[repository], repository, t, pos + 1);
      assert [t][0] in [t];
      EntryKeysAreRegular(pool, repository, packfile, t, pos + 1);
      if Locate(pool[repository], t.hash).Some? {
        LooseIsNegative(pool[repository], t.hash);
        var k := KeyFor(repository, t, Locate(pool[repository], t.hash).value, pos);
        assert ([Some(k)] + rest)[1..] == rest;
      } else {
        assert ([None] + rest)[1..] == rest;
      }
    }
  }

  // -------------------------------------------------------------------------
  // Every entry, once and at its place
  // -------------------------------------------------------------------------

  // The entries of the first n trees.
  function Before(trees: seq<Listing>, n: nat): nat
    requires n <= |trees|
  {
    if n == 0 then 0 else Before(trees, n - 1) + |trees[n - 1].entries|
  }

  lemma {:induction false} BeforeRest(trees: seq<Listing>, n: nat)
    requires 0 < n <= |trees|
    ensures Before(trees, n) == |trees[0].entries| + Before(trees[1..], n - 1)
  {
    if n > 1 {
      BeforeRest(trees, n - 1);
    }
  }

  lemma {:induction false} EntryRowsAt(repository: string, tree: Listing, pos: nat, j: nat)
    requires pos <= |tree.entries|
    ensures |EntryRows(repository, tree, pos)| == |tree.entries| - pos
    ensures pos + j < |tree.entries| ==>
              EntryRows(repository, tree, pos)[j] == Row(EntryRow(repository, tree.hash, tree.entries[pos + j]))
    decreases |tree.entries| - pos
  {
    if pos < |tree.entries| {
      EntryRowsAt(repository, tree, pos + 1, if j == 0 then 0 else j - 1);
    }
  }

  lemma {:induction false} RowCount(repository: string, trees: seq<Listing>)
    ensures |TableRows(repository, trees)| == Before(trees, |trees|)
  {
    if trees != [] {
      EntryRowsAt(repository, trees[0], 0, 0);
      RowCount(repository, trees[1..]);
      BeforeRest(trees, |trees|);
    }
  }

  // Entry j of tree i has its place in the table, and the table has no more rows than there are entries.
  lemma {:induction false} RowsAreEntries(repository: string, trees: seq<Listing>, i: nat, j: nat)
    requires i < |trees| && j < |trees[i].entries|
    ensures |TableRows(repository, trees)| == Before(trees, |trees|)
    ensures Before(trees, i) + j < |TableRows(repository, trees)|
    ensures TableRows(repository, trees)[Before(trees, i) + j] == Row(EntryRow(repository, trees[i].hash, trees[i].entries[j]))
  {
    var own, rest := EntryRows(repository, trees[0], 0), TableRows(repository, trees[1..]);
    RowCount(repository, trees);
    EntryRowsAt(repository, trees[0], 0, j);
    if i > 0 {
      RowsAreEntries(repository, trees[1..], i - 1, j);
      BeforeRest(trees, i);
      assert (own + rest)[|own| + (Before(trees[1..], i - 1) + j)] == rest[Before(trees[1..], i - 1) + j];
    }
  }

  // Where the tree is found, and which of its entries is meant; a loose tree under its hash.
  predicate Keyed(store: Store, repository: string, tree: Listing, j: nat, key: Option<Key>) {
    match Locate(store, tree.hash)
    case None => key == None
    case Some(l) =>
      key.Some? && key.value.repository == repository && key.value.packfile == l.packfile && key.value.offset == l.offset
      && key.value.pos == j && (key.value.hash == if l.offset < 0 then Some(tree.hash) else None)
  }

  lemma {:induction false} EntryKeysAt(store: Store, repository: string, tree: Listing, pos: nat, j: nat)
    requires pos <= |tree.entries|
    ensures |EntryKeys(store, repository, tree, pos)| == |tree.entries| - pos
    ensures pos + j < |tree.entries| ==> Keyed(store, repository, tree, pos + j, EntryKeys(store, repository, tree, pos)[j])
    decreases |tree.entries| - pos
  {
    if pos < |tree.entries| {
      EntryKeysAt(store, repository, tree, pos + 1, if j == 0 then 0 else j - 1);
    }
  }

  lemma {:induction false} KeyCount(store: Store, repository: string, trees: seq<Listing>)
    ensures |TableKeys(store, repository, trees)| == Before(trees, |trees|)
  {
    if trees != [] {
      EntryKeysAt(store, repository, trees[0], 0, 0);
      KeyCount(store, repository, trees[1..]);
      BeforeRest(trees, |trees|);
    }
  }

  // The same of the keys, or errors, of the index.
  lemma {:induction false} KeysAreEntries(store: Store, repository: string, trees: seq<Listing>, i: nat, j: nat)
    requires i < |trees| && j < |trees[i].entries|
    ensures |TableKeys(store, repository, trees)| == Before(trees, |trees|)
    ensures Before(trees, i) + j < |TableKeys(store, repository, trees)|
    ensures Keyed(store, repository, trees[i], j, TableKeys(store, repository, trees)[Before(trees, i) + j])
  {
    var own, rest := EntryKeys(store, repository, trees[0], 0), TableKeys(store, repository, trees[1..]);
    KeyCount(store, repository, trees);
    EntryKeysAt(store, repository, trees[0], 0, j);
    if i > 0 {
      KeysAreEntries(store, repository, trees[1..], i - 1, j);
      BeforeRest(trees, i);
      assert (own + rest)[|own| + (Before(trees[1..], i - 1) + j)] == rest[Before(trees[1..], i - 1) + j];
    }
  }

  // -------------------------------------------------------------------------
  // Keys of selected trees, and keys that lead nowhere
  // -------------------------------------------------------------------------

  // The rows of these trees, in order.
  function OfTrees(hashes: seq<Hash>, answers: seq<Answer>): seq<Answer> {
    if answers == [] then []
    else
      (if answers[0].Row? && answers[0].row.tree in hashes then [answers[0]] else []) + OfTrees(hashes, answers[1..])
  }

  ghost predicate AllRead(pool: Pool, keys: seq<Key>) {
    forall k :: k in keys ==> TreeAt(pool, k).Some? && k.pos < |TreeAt(pool, k).value.entries|
  }

  lemma {:induction false} SelectedKeys(pool: Pool, hashes: seq<Hash>, keys: seq<Key>)
    requires hashes != [] && AllRead(pool, keys)
    ensures Fresh(pool, hashes, keys) == OfTrees(hashes, Fresh(pool, [], keys))
  {
    if keys != [] {
      var k, rest := keys[0], Fresh(pool, [], keys[1..]);
      assert k in keys;
      SelectedKeys(pool, hashes, keys[1..]);
      assert ([EntryOf(k, TreeAt(pool, k).value)] + rest)[1..] == rest;
      assert [] + OfTrees(hashes, rest) == OfTrees(hashes, rest);
    }
  }

  lemma {:induction false} TableKeysAreRead(pool: Pool, repository: string, trees: seq<Listing>)
    requires repository in pool && Sound(pool[repository]) && Stored(pool[repository], trees)
    ensures AllRead(pool, Keys(TableKeys(pool[repository], repository, trees)))
  {
    if trees != [] {
      assert trees[0] in trees;
      TableKeysAreRead(pool, repository, trees[1..]);
      EntryKeysAreRows(pool, repository, trees[0], 0);
      KeysAppend(EntryKeys(pool[repository], repository, trees[0], 0), TableKeys(pool[repository], repository, trees[1..]));
    }
  }

  // With hashes of trees to select, decoding the keys of the table gives its rows of these trees.
  lemma SelectedKeysAreRows(pool: Pool, repository: string, hashes: seq<Hash>, trees: seq<Listing>)
    requires repository in pool && Sound(pool[repository]) && Stored(pool[repository], trees) && hashes != []
    ensures Fresh(pool, hashes, Keys(TableKeys(pool[repository], repository, trees)))
            == OfTrees(hashes, TableRows(repository, trees))
  {
    TableKeysAreRead(pool, repository, trees);
    SelectedKeys(pool, hashes, Keys(TableKeys(pool[repository], repository, trees)));
    KeysAreRows(pool, repository, trees);
  }

  // The first key that leads to no tree is the last to be answered, with an error; one past the entries
  // of a selected tree crashes.
  lemma {:induction false} FreshEnds(pool: Pool, hashes: seq<Hash>, keys: seq<Key>, k: Key, more: seq<Key>)
    requires AllRead(pool, keys)
    ensures TreeAt(pool, k).None? ==> Fresh(pool, hashes, keys + [k] + more) == Fresh(pool, hashes, keys) + [Failure]
    ensures TreeAt(pool, k).Some? && (hashes == [] || TreeAt(pool, k).value.hash in hashes)
            && k.pos >= |TreeAt(pool, k).value.entries| ==>
              Fresh(pool, hashes, keys + [k] + more) == Fresh(pool, hashes, keys) + [Panic]
  {
    var all := keys + [k] + more;
    if keys == [] {
      assert all[0] == k;
    } else {
      assert keys[0] in keys;
      FreshEnds(pool, hashes, keys[1..], k, more);
      assert all[0] == keys[0] && all[1..] == keys[1..] + [k] + more;
      var first := EntryOf(keys[0], TreeAt(pool, keys[0]).value);
      Associative([first], Fresh(pool, hashes, keys[1..]), [Failure]);
      Associative([first], Fresh(pool, hashes, keys[1..]), [Panic]);
    }
  }
}
