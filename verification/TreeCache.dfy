// When the tree remembered by the index over tree_entries is the tree of the key.

module TreeCache {
  import opened Objects
  import opened Packfiles
  import opened TreeEntries

  // Every key leads to a tree that has the entry it means.
  ghost predicate Readable(pool: Pool, keys: seq<Key>) {
    forall k :: k in keys ==> TreeAt(pool, k).Some? && k.pos < |TreeAt(pool, k).value.entries|
  }

  function TreeOfKey(pool: Pool, k: Key): Listing {
    match TreeAt(pool, k) case Some(t) => t case None => Listing(ZERO_HASH, [])
  }

  // -------------------------------------------------------------------------
  // One packfile, and a selector of hashes
  // -------------------------------------------------------------------------

  ghost predicate AllRegular(pool: Pool, repository: string, packfile: Hash, keys: seq<Key>) {
    forall k :: k in keys ==> Regular(pool, repository, packfile, k)
  }

  predicate Rejected(pool: Pool, hashes: seq<Hash>, k: Key) {
    hashes != [] && TreeOfKey(pool, k).hash !in hashes
  }

  // The offset of the last of the first n keys that was not rejected.
  function LastAccepted(pool: Pool, hashes: seq<Hash>, keys: seq<Key>, n: nat): int
    requires n <= |keys|
  {
    if n == 0 then 0
    else if Rejected(pool, hashes, keys[n - 1]) then LastAccepted(pool, hashes, keys, n - 1)
    else keys[n - 1].offset
  }

  // Key i directly follows a rejected key and names the same loose tree, or is at the offset of the
  // last key that was not rejected.
  predicate Reused(pool: Pool, hashes: seq<Hash>, keys: seq<Key>, i: nat) {
    0 < i < |keys| && Rejected(pool, hashes, keys[i - 1]) &&
    if keys[i].offset < 0 then KeyHash(keys[i]) == TreeOfKey(pool, keys[i - 1]).hash
    else keys[i].offset == LastAccepted(pool, hashes, keys, i)
  }

  // An answer no fresh decoding gives.
  predicate Foreign(hashes: seq<Hash>, a: Answer) {
    a.Panic? || (a.Row? && a.row.tree !in hashes)
  }

  // What is remembered before key n, as long as no rejected tree was reused.
  function MemoryAt(pool: Pool, hashes: seq<Hash>, keys: seq<Key>, n: nat): Memory
    requires n <= |keys|
  {
    Memory(LastAccepted(pool, hashes, keys, n), if n == 0 then None else Some(TreeOfKey(pool, keys[n - 1])))
  }

  lemma {:induction false} FreshIsNotForeign(pool: Pool, hashes: seq<Hash>, keys: seq<Key>)
    requires Readable(pool, keys) && hashes != []
    ensures forall a :: a in Fresh(pool, hashes, keys) ==> !Foreign(hashes, a)
  {
    if keys != [] {
      assert keys[0] in keys;
      FreshIsNotForeign(pool, hashes, keys[1..]);
    }
  }

  // On a hit after a key that was not rejected, the remembered tree is the right one.
  lemma HitIsRightAfterAccepted(pool: Pool, repository: string, packfile: Hash, hashes: seq<Hash>, keys: seq<Key>, n: nat)
    requires AllRegular(pool, repository, packfile, keys) && Readable(pool, keys) && n < |keys|
    requires Hit(MemoryAt(pool, hashes, keys, n), keys[n])
    ensures n > 0
    ensures !Rejected(pool, hashes, keys[n - 1]) ==> TreeOfKey(pool, keys[n]) == TreeOfKey(pool, keys[n - 1])
  {
    assert Regular(pool, repository, packfile, keys[n]);
    if n > 0 {
      assert keys[n] in keys && keys[n - 1] in keys;
      var j, k := keys[n - 1], keys[n];
      assert Regular(pool, repository, packfile, j);
      TreeAtIs(pool, j);
      TreeAtIs(pool, k);
      if k.offset >= 0 && !Rejected(pool, hashes, j) {
        assert j.offset == k.offset;
        assert TreeAt(pool, j) == TreeAt(pool, k);
      }
    }
  }

  lemma HitIffReused(pool: Pool, repository: string, packfile: Hash, hashes: seq<Hash>, keys: seq<Key>, n: nat)
    requires AllRegular(pool, repository, packfile, keys) && Readable(pool, keys) && n < |keys|
    requires n > 0 && Rejected(pool, hashes, keys[n - 1])
    ensures Hit(MemoryAt(pool, hashes, keys, n), keys[n]) <==> Reused(pool, hashes, keys, n)
  {
    assert keys[n] in keys && Regular(pool, repository, packfile, keys[n]);
  }

  // One key that reuses nothing is answered as it should be, and is remembered.
  lemma RightStep(pool: Pool, repository: string, packfile: Hash, hashes: seq<Hash>, keys: seq<Key>, n: nat)
    requires AllRegular(pool, repository, packfile, keys) && Readable(pool, keys) && n < |keys|
    requires !Reused(pool, hashes, keys, n)
    ensures var k, t := keys[n], TreeOfKey(pool, keys[n]);
            var own := if Rejected(pool, hashes, k) then [] else [EntryOf(k, t)];
            && Cached(pool, hashes, keys[n..], MemoryAt(pool, hashes, keys, n))
               == own + Cached(pool, hashes, keys[n + 1..], MemoryAt(pool, hashes, keys, n + 1))
            && Fresh(pool, hashes, keys[n..]) == own + Fresh(pool, hashes, keys[n + 1..])
  {
    var k, m, rest := keys[n], MemoryAt(pool, hashes, keys, n), keys[n + 1..];
    assert k in keys && keys[n..][0] == k && keys[n..][1..] == rest;
    assert Regular(pool, repository, packfile, k);
    if Hit(m, k) {
      HitIsRightAfterAccepted(pool, repository, packfile, hashes, keys, n);
      if Rejected(pool, hashes, keys[n - 1]) {
        HitIffReused(pool, repository, packfile, hashes, keys, n);
      }
    }
    assert [] + Fresh(pool, hashes, rest) == Fresh(pool, hashes, rest);
    var next := MemoryAt(pool, hashes, keys, n + 1);
    assert [] + Cached(pool, hashes, rest, next) == Cached(pool, hashes, rest, next);
  }

  // The first key that reuses a rejected tree is answered from it, or crashes.
  lemma WrongStep(pool: Pool, repository: string, packfile: Hash, hashes: seq<Hash>, keys: seq<Key>, n: nat)
    requires AllRegular(pool, repository, packfile, keys) && Readable(pool, keys) && n < |keys|
    requires Reused(pool, hashes, keys, n)
    ensures var answers := Cached(pool, hashes, keys[n..], MemoryAt(pool, hashes, keys, n));
            answers != [] && Foreign(hashes, answers[0])
  {
    assert keys[n..][0] == keys[n];
    HitIffReused(pool, repository, packfile, hashes, keys, n);
  }

  lemma {:induction false} CacheFrom(pool: Pool, repository: string, packfile: Hash, hashes: seq<Hash>, keys: seq<Key>, n: nat)
    requires AllRegular(pool, repository, packfile, keys) && Readable(pool, keys) && n <= |keys|
    ensures var answers := Cached(pool, hashes, keys[n..], MemoryAt(pool, hashes, keys, n));
            if exists i :: n <= i < |keys| && Reused(pool, hashes, keys, i) then exists a :: a in answers && Foreign(hashes, a)
            else answers == Fresh(pool, hashes, keys[n..])
    decreases |keys| - n
  {
    if n < |keys| {
      if Reused(pool, hashes, keys, n) {
        WrongStep(pool, repository, packfile, hashes, keys, n);
        var answers := Cached(pool, hashes, keys[n..], MemoryAt(pool, hashes, keys, n));
        assert answers[0] in answers;
      } else {
        RightStep(pool, repository, packfile, hashes, keys, n);
        CacheFrom(pool, repository, packfile, hashes, keys, n + 1);
      }
    }
  }

  // Under any selector of hashes, the iterator returns what decoding every key afresh would exactly if
  // no rejected key is directly followed by a key of the same loose tree or by a key at the offset of
  // the last key that was not rejected.
  lemma SelectorIsExactIff(pool: Pool, repository: string, packfile: Hash, hashes: seq<Hash>, keys: seq<Key>)
    requires AllRegular(pool, repository, packfile, keys) && Readable(pool, keys)
    ensures Cached(pool, hashes, keys, EMPTY) == Fresh(pool, hashes, keys)
            <==> forall i :: 0 < i < |keys| ==> !Reused(pool, hashes, keys, i)
  {
    CacheFrom(pool, repository, packfile, hashes, keys, 0);
    assert keys[0..] == keys;
    if i :| 0 < i < |keys| && Reused(pool, hashes, keys, i) {
      FreshIsNotForeign(pool, hashes, keys);
    }
  }

  lemma Listed(j: Key, k: Key, l: Key)
    ensures [j, k][1..] == [k] && [j, k, l][1..] == [k, l] && [k][1..] == []
  {}

  // A second key of a rejected loose tree gets past the selector.
  lemma RejectedTreeIsReused(pool: Pool, hashes: seq<Hash>, k: Key, t: Listing)
    requires k.offset < 0 && k.hash.Some? && TreeAt(pool, k) == Some(t) && k.pos < |t.entries|
    requires hashes != [] && t.hash !in hashes
    ensures Fresh(pool, hashes, [k, k]) == [] && Cached(pool, hashes, [k, k], EMPTY) == [EntryOf(k, t)]
  {
    Listed(k, k, k);
    TreeAtIs(pool, k);
    assert Cached(pool, hashes, [k, k], EMPTY) == Cached(pool, hashes, [k], Memory(0, Some(t)));
    assert Cached(pool, hashes, [], Memory(k.offset, Some(t))) == [];
    assert Fresh(pool, hashes, [k]) == [];
  }

  // After a rejected tree, the offset that is still remembered is that of the tree before it.
  lemma StaleOffsetIsReused(pool: Pool, hashes: seq<Hash>, a: Key, b: Key, t: Listing, u: Listing)
    requires a.offset > 0 && b.offset > 0 && a.offset != b.offset && a.hash == None && b.hash == None
    requires TreeAt(pool, a) == Some(t) && TreeAt(pool, b) == Some(u)
    requires t.hash in hashes && u.hash !in hashes && a.pos < |t.entries| && a.pos < |u.entries|
    ensures Fresh(pool, hashes, [a, b, a]) == [EntryOf(a, t), EntryOf(a, t)]
    ensures Cached(pool, hashes, [a, b, a], EMPTY) == [EntryOf(a, t), EntryOf(a, u)]
  {
    Listed(a, b, a);
    Listed(b, a, a);
    var m := Memory(a.offset, Some(t));
    assert Cached(pool, hashes, [], Memory(a.offset, Some(u))) == [];
    assert Cached(pool, hashes, [a], Memory(a.offset, Some(u))) == [EntryOf(a, u)] + [];
    assert Cached(pool, hashes, [b, a], m) == Cached(pool, hashes, [a], Memory(a.offset, Some(u)));
    assert Cached(pool, hashes, [a, b, a], EMPTY) == [EntryOf(a, t)] + Cached(pool, hashes, [b, a], m);
    assert Fresh(pool, hashes, []) == [] && Fresh(pool, hashes, [a]) == [EntryOf(a, t)] + [];
    assert Fresh(pool, hashes, [b, a]) == Fresh(pool, hashes, [a]);
    assert Fresh(pool, hashes, [a, b, a]) == [EntryOf(a, t)] + Fresh(pool, hashes, [b, a]);
  }

  // -------------------------------------------------------------------------
  // Any packfiles and repositories, and no selector
  // -------------------------------------------------------------------------

  // A packed key has an offset above zero and no hash, a loose one a hash.
  ghost predicate Proper(keys: seq<Key>) {
    forall k :: k in keys ==> k.offset != 0 && (k.offset < 0 <==> k.hash.Some?)
  }

  // Trees of one hash have the same entries, as git names them by their content.
  ghost predicate NamedByContent(pool: Pool, keys: seq<Key>) {
    forall j, k :: j in keys && k in keys && TreeOfKey(pool, j).hash == TreeOfKey(pool, k).hash ==>
      TreeOfKey(pool, j) == TreeOfKey(pool, k)
  }

  // Within one repository they do in any case.
  lemma OneRepositoryIsNamed(pool: Pool, repository: string, keys: seq<Key>)
    requires Readable(pool, keys) && forall k :: k in keys ==> k.repository == repository
    ensures NamedByContent(pool, keys)
  {
    forall j, k | j in keys && k in keys && TreeOfKey(pool, j).hash == TreeOfKey(pool, k).hash
      ensures TreeOfKey(pool, j) == TreeOfKey(pool, k)
    {
      TreeAtIs(pool, j);
      TreeAtIs(pool, k);
    }
  }

  // The first of the consecutive keys at the offset of key i; a loose key stands alone.
  function RunStart(keys: seq<Key>, i: nat): (f: nat)
    requires i < |keys|
    ensures f <= i
  {
    if i == 0 || keys[i].offset < 0 || keys[i - 1].offset != keys[i].offset then i else RunStart(keys, i - 1)
  }

  // The two trees have the entry of the key in common, under one hash.
  predicate Agree(k: Key, t: Listing, u: Listing) {
    t.hash == u.hash && k.pos < |t.entries| && k.pos < |u.entries| && t.entries[k.pos] == u.entries[k.pos]
  }

  // Key i agrees with the first key of its run.
  predicate RunAgrees(pool: Pool, keys: seq<Key>, i: nat)
    requires i < |keys|
  {
    Agree(keys[i], TreeOfKey(pool, keys[RunStart(keys, i)]), TreeOfKey(pool, keys[i]))
  }

  // What is remembered before key n: the last offset with the tree of the first key of its run.
  function RunMemory(pool: Pool, keys: seq<Key>, n: nat): Memory
    requires n <= |keys|
  {
    if n == 0 then EMPTY else Memory(keys[n - 1].offset, Some(TreeOfKey(pool, keys[RunStart(keys, n - 1)])))
  }

  // The tree a key is answered from is that of the first key of its run.
  lemma RunStep(pool: Pool, keys: seq<Key>, n: nat)
    requires Proper(keys) && Readable(pool, keys) && NamedByContent(pool, keys) && n < |keys|
    ensures var k, u := keys[n], TreeOfKey(pool, keys[RunStart(keys, n)]);
            Cached(pool, [], keys[n..], RunMemory(pool, keys, n))
            == if EntryOf(k, u).Panic? then [Panic]
               else [EntryOf(k, u)] + Cached(pool, [], keys[n + 1..], RunMemory(pool, keys, n + 1))
  {
    var k, m := keys[n], RunMemory(pool, keys, n);
    assert k in keys && keys[n..][0] == k && keys[n..][1..] == keys[n + 1..];
    if n > 0 {
      assert keys[n - 1] in keys && keys[RunStart(keys, n - 1)] in keys;
      if k.offset < 0 && Hit(m, k) {
        TreeAtIs(pool, k);
        assert TreeOfKey(pool, k) == m.tree.value;
      }
    }
  }

  lemma FreshStep(pool: Pool, keys: seq<Key>, n: nat)
    requires Readable(pool, keys) && n < |keys|
    ensures Fresh(pool, [], keys[n..]) == [EntryOf(keys[n], TreeOfKey(pool, keys[n]))] + Fresh(pool, [], keys[n + 1..])
  {
    assert keys[n] in keys && keys[n..][0] == keys[n] && keys[n..][1..] == keys[n + 1..];
  }

  lemma AgreeIff(k: Key, t: Listing, u: Listing)
    requires k.pos < |u.entries|
    ensures EntryOf(k, t) == EntryOf(k, u) <==> Agree(k, t, u)
  {}

  // The answers are right from key n on.
  ghost predicate RightFrom(pool: Pool, keys: seq<Key>, n: nat)
    requires n <= |keys|
  {
    Cached(pool, [], keys[n..], RunMemory(pool, keys, n)) == Fresh(pool, [], keys[n..])
  }

  lemma OneMoreRight(pool: Pool, keys: seq<Key>, n: nat)
    requires Proper(keys) && Readable(pool, keys) && NamedByContent(pool, keys) && n < |keys|
    ensures RightFrom(pool, keys, n) <==> RunAgrees(pool, keys, n) && RightFrom(pool, keys, n + 1)
  {
    var k := keys[n];
    var t, u := TreeOfKey(pool, keys[RunStart(keys, n)]), TreeOfKey(pool, k);
    assert k in keys;
    RunStep(pool, keys, n);
    FreshStep(pool, keys, n);
    AgreeIff(k, t, u);
    var later, more := Cached(pool, [], keys[n + 1..], RunMemory(pool, keys, n + 1)), Fresh(pool, [], keys[n + 1..]);
    FirstsAndRests(EntryOf(k, t), EntryOf(k, u), later, more);
    FirstsAndRests(Panic, EntryOf(k, u), [], more);
    assert [Panic] + [] == [Panic];
  }

  lemma {:induction false} RunsFrom(pool: Pool, keys: seq<Key>, n: nat)
    requires Proper(keys) && Readable(pool, keys) && NamedByContent(pool, keys) && n <= |keys|
    ensures RightFrom(pool, keys, n) <==> forall i :: n <= i < |keys| ==> RunAgrees(pool, keys, i)
    decreases |keys| - n
  {
    if n < |keys| {
      OneMoreRight(pool, keys, n);
      RunsFrom(pool, keys, n + 1);
    }
  }

  lemma FirstsAndRests(x: Answer, y: Answer, a: seq<Answer>, b: seq<Answer>)
    ensures [x] + a == [y] + b <==> x == y && a == b
  {
    assert ([x] + a)[0] == x && ([x] + a)[1..] == a && ([y] + b)[0] == y && ([y] + b)[1..] == b;
  }

  // Neither the packfile nor the repository is compared. The answers are those of decoding every key
  // afresh exactly if, of consecutive keys at one offset, each agrees with the first on hash and entry.
  lemma OffsetsAreExactIff(pool: Pool, keys: seq<Key>)
    requires Proper(keys) && Readable(pool, keys) && NamedByContent(pool, keys)
    ensures Cached(pool, [], keys, EMPTY) == Fresh(pool, [], keys)
            <==> forall i :: 0 <= i < |keys| ==> RunAgrees(pool, keys, i)
  {
    RunsFrom(pool, keys, 0);
    assert keys[0..] == keys;
  }

  // -------------------------------------------------------------------------
  // Any packfiles and repositories, and any selector
  // -------------------------------------------------------------------------

  // The key whose tree is remembered before key n, as long as the answers are right.
  function Remembered(pool: Pool, hashes: seq<Hash>, keys: seq<Key>, n: nat): (f: nat)
    requires 0 < n <= |keys|
    ensures f < n
    decreases n, 0
  {
    if n > 1 && Reuses(pool, hashes, keys, n - 1) then Remembered(pool, hashes, keys, n - 1) else n - 1
  }

  // Key n is at the offset of the last key that was not rejected, or names the loose tree remembered.
  predicate Reuses(pool: Pool, hashes: seq<Hash>, keys: seq<Key>, n: nat)
    requires n < |keys|
    decreases n, 1
  {
    n > 0 &&
    if keys[n].offset < 0 then KeyHash(keys[n]) == TreeOfKey(pool, keys[Remembered(pool, hashes, keys, n)]).hash
    else keys[n].offset == LastAccepted(pool, hashes, keys, n)
  }

  // Key n is not rejected and agrees with the key whose tree it is answered from.
  predicate ReusesRightly(pool: Pool, hashes: seq<Hash>, keys: seq<Key>, n: nat)
    requires 0 < n < |keys|
  {
    !Rejected(pool, hashes, keys[n])
    && Agree(keys[n], TreeOfKey(pool, keys[Remembered(pool, hashes, keys, n)]), TreeOfKey(pool, keys[n]))
  }

  predicate RightAt(pool: Pool, hashes: seq<Hash>, keys: seq<Key>, n: nat)
    requires n < |keys|
  {
    Reuses(pool, hashes, keys, n) ==> ReusesRightly(pool, hashes, keys, n)
  }

  function MemoryBefore(pool: Pool, hashes: seq<Hash>, keys: seq<Key>, n: nat): Memory
    requires n <= |keys|
  {
    Memory(LastAccepted(pool, hashes, keys, n),
           if n == 0 then None else Some(TreeOfKey(pool, keys[Remembered(pool, hashes, keys, n)])))
  }

  // The offset remembered before the first key is that of no key.
  lemma {:induction false} LastAcceptedIsKey(pool: Pool, hashes: seq<Hash>, keys: seq<Key>, n: nat)
    requires Proper(keys) && n <= |keys|
    ensures LastAccepted(pool, hashes, keys, n) != 0 ==> n > 0
  {}

  lemma HitIffReuses(pool: Pool, hashes: seq<Hash>, keys: seq<Key>, n: nat)
    requires Proper(keys) && n < |keys|
    ensures Hit(MemoryBefore(pool, hashes, keys, n), keys[n]) <==> Reuses(pool, hashes, keys, n)
  {
    assert keys[n] in keys;
    LastAcceptedIsKey(pool, hashes, keys, n);
  }

  ghost predicate AnswersRight(pool: Pool, hashes: seq<Hash>, keys: seq<Key>, n: nat)
    requires n <= |keys|
  {
    Cached(pool, hashes, keys[n..], MemoryBefore(pool, hashes, keys, n)) == Fresh(pool, hashes, keys[n..])
  }

  // What a key that is answered rightly adds to both runs.
  lemma RightlyAnswered(pool: Pool, hashes: seq<Hash>, keys: seq<Key>, n: nat)
    requires Proper(keys) && Readable(pool, keys) && n < |keys| && RightAt(pool, hashes, keys, n)
    ensures AnswersRight(pool, hashes, keys, n) <==> AnswersRight(pool, hashes, keys, n + 1)
  {
    var k, m, rest := keys[n], MemoryBefore(pool, hashes, keys, n), keys[n + 1..];
    assert k in keys && keys[n..][0] == k && keys[n..][1..] == rest;
    HitIffReuses(pool, hashes, keys, n);
    var next := Cached(pool, hashes, rest, MemoryBefore(pool, hashes, keys, n + 1));
    FirstsAndRests(EntryOf(k, TreeOfKey(pool, k)), EntryOf(k, TreeOfKey(pool, k)), next, Fresh(pool, hashes, rest));
  }

  // From any memory, either the run crashes or it has an answer for every key that is not rejected.
  lemma {:induction false} NoAnswerIsMissing(pool: Pool, hashes: seq<Hash>, keys: seq<Key>, m: Memory)
    requires Readable(pool, keys)
    ensures Panic in Cached(pool, hashes, keys, m) || |Cached(pool, hashes, keys, m)| >= |Fresh(pool, hashes, keys)|
    ensures Panic !in Fresh(pool, hashes, keys)
  {
    if keys != [] {
      var k, rest := keys[0], keys[1..];
      assert k in keys;
      NoAnswerIsMissing(pool, hashes, rest, m.(prevTreeOffset := k.offset));
      NoAnswerIsMissing(pool, hashes, rest, m.(tree := TreeAt(pool, k)));
      NoAnswerIsMissing(pool, hashes, rest, Memory(k.offset, TreeAt(pool, k)));
    }
  }

  lemma WronglyAnswered(pool: Pool, hashes: seq<Hash>, keys: seq<Key>, n: nat)
    requires Proper(keys) && Readable(pool, keys) && n < |keys| && !RightAt(pool, hashes, keys, n)
    ensures !AnswersRight(pool, hashes, keys, n)
  {
    var k, m, rest := keys[n], MemoryBefore(pool, hashes, keys, n), keys[n + 1..];
    assert k in keys && keys[n..][0] == k && keys[n..][1..] == rest;
    assert forall j :: j in keys[n..] ==> j in keys;
    HitIffReuses(pool, hashes, keys, n);
    NoAnswerIsMissing(pool, hashes, keys[n..], m);
    var answer, later := EntryOf(k, m.tree.value), Cached(pool, hashes, rest, m.(prevTreeOffset := k.offset));
    if answer.Panic? {
      assert Cached(pool, hashes, keys[n..], m) == [Panic];
      assert Panic in [Panic];
    } else if Rejected(pool, hashes, k) {
      assert forall j :: j in rest ==> j in keys;
      NoAnswerIsMissing(pool, hashes, rest, m.(prevTreeOffset := k.offset));
      OneTooMany(answer, later, Fresh(pool, hashes, rest));
    } else {
      AgreeIff(k, m.tree.value, TreeOfKey(pool, k));
      FirstsAndRests(answer, EntryOf(k, TreeOfKey(pool, k)), later, Fresh(pool, hashes, rest));
    }
  }

  lemma OneTooMany(answer: Answer, later: seq<Answer>, others: seq<Answer>)
    requires Panic !in others && (Panic in later || |later| >= |others|)
    ensures [answer] + later != others
  {
    assert Panic in later ==> Panic in [answer] + later;
  }

  lemma {:induction false} AnswersFrom(pool: Pool, hashes: seq<Hash>, keys: seq<Key>, n: nat)
    requires Proper(keys) && Readable(pool, keys) && n <= |keys|
    ensures AnswersRight(pool, hashes, keys, n) <==> forall i :: n <= i < |keys| ==> RightAt(pool, hashes, keys, i)
    decreases |keys| - n
  {
    if n < |keys| {
      AnswersFrom(pool, hashes, keys, n + 1);
      if RightAt(pool, hashes, keys, n) {
        RightlyAnswered(pool, hashes, keys, n);
      } else {
        WronglyAnswered(pool, hashes, keys, n);
      }
    }
  }

  // The answers are those of decoding every key afresh exactly if no rejected key is answered from what
  // is remembered, and every other key that is agrees with the key whose tree that is.
  lemma AnswersAreExactIff(pool: Pool, hashes: seq<Hash>, keys: seq<Key>)
    requires Proper(keys) && Readable(pool, keys)
    ensures Cached(pool, hashes, keys, EMPTY) == Fresh(pool, hashes, keys)
            <==> forall i :: 0 <= i < |keys| ==> RightAt(pool, hashes, keys, i)
  {
    AnswersFrom(pool, hashes, keys, 0);
    assert keys[0..] == keys;
  }
}
