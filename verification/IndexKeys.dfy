// The keys of the indexes, as bytes and back.

module IndexKeys {
  import opened Objects
  import opened IndexCodecs

  // Where an object is: at an offset of a packfile or, below zero, loose under its hash.
  datatype PackKey = PackKey(repository: Str, packfile: Str, offset: int64, hash: Str)

  datatype FileKey = FileKey(at: PackKey, name: Str, mode: int64, tree: Str)

  datatype TreeEntryKey = TreeEntryKey(at: PackKey, pos: int64)

  datatype CommitFileKey = CommitFileKey(repository: Str, packfile: Str, hash: Str, offset: int64, name: Str, mode: int64,
                                         tree: Str, commit: Str)

  datatype RefCommitKey = RefCommitKey(repository: Str, hash: Str, refName: Str, index: int64)

  predicate IsHash(s: Str) {
    |s| == HASH_SIZE
  }

  // What reading gives back: only the offset or only the hash is kept.
  function Normal(k: PackKey): PackKey {
    if k.offset >= 0 then k.(hash := []) else k.(offset := -1)
  }

  predicate HasLocation(k: PackKey) {
    k.offset >= 0 || IsHash(k.hash)
  }

  // -------------------------------------------------------------------------
  // packOffsetIndexKey
  // -------------------------------------------------------------------------

  function EncodeLocation(k: PackKey): seq<byte> {
    EncodeBool(k.offset >= 0) + if k.offset >= 0 then EncodeInt64(k.offset) else k.hash
  }

  function EncodePack(k: PackKey): seq<byte> {
    EncodeString(k.repository) + (k.packfile + EncodeLocation(k))
  }

  // None is a hash of the wrong size.
  function PackBytes(k: PackKey): Option<seq<byte>> {
    if !IsHash(k.packfile) || !HasLocation(k) then None else Some(EncodePack(k))
  }

  function DecodePack(bs: seq<byte>): Parse<PackKey> {
    var (repository, bs) :- DecodeString(bs);
    var (packfile, bs) :- DecodeHash(bs);
    var (packed, bs) :- DecodeBool(bs);
    if packed then
      var (offset, bs) :- DecodeInt64(bs);
      Done(PackKey(repository, packfile, offset, []), bs)
    else
      var (hash, bs) :- DecodeHash(bs);
      Done(PackKey(repository, packfile, -1, hash), bs)
  }

  lemma LocationRoundTrips(k: PackKey, rest: seq<byte>)
    requires HasLocation(k)
    ensures var bs := EncodeLocation(k) + rest;
            && DecodeBool(bs).Done? && DecodeBool(bs).value == (k.offset >= 0)
            && var more := DecodeBool(bs).rest;
               if k.offset >= 0 then DecodeInt64(more) == Done(k.offset, rest) else DecodeHash(more) == Done(k.hash, rest)
  {
    var tail := if k.offset >= 0 then EncodeInt64(k.offset) else k.hash;
    Associative(EncodeBool(k.offset >= 0), tail, rest);
    BoolRoundTrips(k.offset >= 0, tail + rest);
    if k.offset >= 0 {
      Int64RoundTrips(k.offset, rest);
    } else {
      HashRoundTrips(k.hash, rest);
    }
  }

  // Reading the bytes of a key, whatever follows them, gives the key in its normal form.
  lemma PackRoundTrips(k: PackKey, rest: seq<byte>)
    requires PackBytes(k).Some?
    ensures DecodePack(PackBytes(k).value + rest) == Done(Normal(k), rest)
  {
    var tail := k.packfile + EncodeLocation(k);
    Associative(EncodeString(k.repository), tail, rest);
    StringRoundTrips(k.repository, tail + rest);
    Associative(k.packfile, EncodeLocation(k), rest);
    HashRoundTrips(k.packfile, EncodeLocation(k) + rest);
    LocationRoundTrips(k, rest);
  }

  // No key's bytes begin another's, and only keys with the same normal form share them.
  lemma PackIsPrefixFree(j: PackKey, k: PackKey, rest: seq<byte>)
    requires PackBytes(j).Some? && PackBytes(k).Some? && PackBytes(k).value == PackBytes(j).value + rest
    ensures rest == [] && Normal(j) == Normal(k)
  {
    PackRoundTrips(j, rest);
    PackRoundTrips(k, []);
    assert PackBytes(k).value + [] == PackBytes(k).value;
  }

  // -------------------------------------------------------------------------
  // fileIndexKey
  // -------------------------------------------------------------------------

  function EncodeFileTail(k: FileKey): seq<byte> {
    EncodeString(k.name) + (EncodeInt64(k.mode) + k.tree)
  }

  function FileBytes(k: FileKey): Option<seq<byte>> {
    if PackBytes(k.at).None? || !IsHash(k.tree) then None else Some(PackBytes(k.at).value + EncodeFileTail(k))
  }

  function DecodeFile(bs: seq<byte>): Parse<FileKey> {
    var (at, bs) :- DecodePack(bs);
    var (name, bs) :- DecodeString(bs);
    var (mode, bs) :- DecodeInt64(bs);
    var (tree, bs) :- DecodeHash(bs);
    Done(FileKey(at, name, mode, tree), bs)
  }

  lemma FileRoundTrips(k: FileKey, rest: seq<byte>)
    requires FileBytes(k).Some?
    ensures DecodeFile(FileBytes(k).value + rest) == Done(k.(at := Normal(k.at)), rest)
  {
    var tail := EncodeInt64(k.mode) + k.tree;
    Associative(PackBytes(k.at).value, EncodeFileTail(k), rest);
    PackRoundTrips(k.at, EncodeFileTail(k) + rest);
    Associative(EncodeString(k.name), tail, rest);
    StringRoundTrips(k.name, tail + rest);
    Associative(EncodeInt64(k.mode), k.tree, rest);
    Int64RoundTrips(k.mode, k.tree + rest);
    HashRoundTrips(k.tree, rest);
  }

  lemma FileIsPrefixFree(j: FileKey, k: FileKey, rest: seq<byte>)
    requires FileBytes(j).Some? && FileBytes(k).Some? && FileBytes(k).value == FileBytes(j).value + rest
    ensures rest == [] && j.(at := Normal(j.at)) == k.(at := Normal(k.at))
  {
    FileRoundTrips(j, rest);
    FileRoundTrips(k, []);
    assert FileBytes(k).value + [] == FileBytes(k).value;
  }

  // -------------------------------------------------------------------------
  // treeEntriesIndexKey
  // -------------------------------------------------------------------------

  // The size of the packfile's hash is not checked: a hash of the wrong size is left out.
  function TreeEntryBytes(k: TreeEntryKey): Option<seq<byte>> {
    if !HasLocation(k.at) then None
    else
      var packfile := if IsHash(k.at.packfile) then k.at.packfile else [];
      Some(EncodePack(k.at.(packfile := packfile)) + EncodeInt64(k.pos))
  }

  function DecodeTreeEntry(bs: seq<byte>): Parse<TreeEntryKey> {
    var (at, bs) :- DecodePack(bs);
    var (pos, bs) :- DecodeInt64(bs);
    Done(TreeEntryKey(at, pos), bs)
  }

  lemma DecodedPackfileIsHash(bs: seq<byte>)
    ensures DecodePack(bs).Done? ==> IsHash(DecodePack(bs).value.packfile)
  {}

  // Such a key is not read back, and every other one is.
  lemma TreeEntryRoundTripsIff(k: TreeEntryKey, rest: seq<byte>)
    requires TreeEntryBytes(k).Some?
    ensures DecodeTreeEntry(TreeEntryBytes(k).value + rest) == Done(k.(at := Normal(k.at)), rest) <==> IsHash(k.at.packfile)
  {
    var bs := TreeEntryBytes(k).value;
    if IsHash(k.at.packfile) {
      Associative(EncodePack(k.at), EncodeInt64(k.pos), rest);
      PackRoundTrips(k.at, EncodeInt64(k.pos) + rest);
      Int64RoundTrips(k.pos, rest);
    } else {
      DecodedPackfileIsHash(bs + rest);
    }
  }

  lemma TreeEntryIsPrefixFree(j: TreeEntryKey, k: TreeEntryKey, rest: seq<byte>)
    requires TreeEntryBytes(j).Some? && TreeEntryBytes(k).Some? && IsHash(j.at.packfile) && IsHash(k.at.packfile)
    requires TreeEntryBytes(k).value == TreeEntryBytes(j).value + rest
    ensures rest == [] && j.(at := Normal(j.at)) == k.(at := Normal(k.at))
  {
    TreeEntryRoundTripsIff(j, rest);
    TreeEntryRoundTripsIff(k, []);
    assert TreeEntryBytes(k).value + [] == TreeEntryBytes(k).value;
  }

  // -------------------------------------------------------------------------
  // commitFileIndexKey
  // -------------------------------------------------------------------------

  function CommitFileTail(k: CommitFileKey): seq<byte> {
    EncodeInt64(k.offset) + (EncodeString(k.name) + (EncodeInt64(k.mode) + (k.tree + k.commit)))
  }

  function CommitFileBytes(k: CommitFileKey): Option<seq<byte>> {
    if !IsHash(k.packfile) || !IsHash(k.hash) || !IsHash(k.tree) || !IsHash(k.commit) then None
    else Some(EncodeString(k.repository) + (k.packfile + (k.hash + CommitFileTail(k))))
  }

  function DecodeCommitFile(bs: seq<byte>): Parse<CommitFileKey> {
    var (repository, bs) :- DecodeString(bs);
    var (packfile, bs) :- DecodeHash(bs);
    var (hash, bs) :- DecodeHash(bs);
    var (offset, bs) :- DecodeInt64(bs);
    var (name, bs) :- DecodeString(bs);
    var (mode, bs) :- DecodeInt64(bs);
    var (tree, bs) :- DecodeHash(bs);
    var (commit, bs) :- DecodeHash(bs);
    Done(CommitFileKey(repository, packfile, hash, offset, name, mode, tree, commit), bs)
  }

  // This key keeps both the offset and the hash.
  lemma CommitFileRoundTrips(k: CommitFileKey, rest: seq<byte>)
    requires CommitFileBytes(k).Some?
    ensures DecodeCommitFile(CommitFileBytes(k).value + rest) == Done(k, rest)
  {
    var hashes := k.tree + k.commit;
    var modes := EncodeInt64(k.mode) + hashes;
    var names := EncodeString(k.name) + modes;
    Associative(EncodeString(k.repository), k.packfile + (k.hash + CommitFileTail(k)), rest);
    StringRoundTrips(k.repository, k.packfile + (k.hash + CommitFileTail(k)) + rest);
    Associative(k.packfile, k.hash + CommitFileTail(k), rest);
    HashRoundTrips(k.packfile, k.hash + CommitFileTail(k) + rest);
    Associative(k.hash, CommitFileTail(k), rest);
    HashRoundTrips(k.hash, CommitFileTail(k) + rest);
    Associative(EncodeInt64(k.offset), names, rest);
    Int64RoundTrips(k.offset, names + rest);
    Associative(EncodeString(k.name), modes, rest);
    StringRoundTrips(k.name, modes + rest);
    Associative(EncodeInt64(k.mode), hashes, rest);
    Int64RoundTrips(k.mode, hashes + rest);
    Associative(k.tree, k.commit, rest);
    HashRoundTrips(k.tree, k.commit + rest);
    HashRoundTrips(k.commit, rest);
  }

  lemma CommitFileIsPrefixFree(j: CommitFileKey, k: CommitFileKey, rest: seq<byte>)
    requires CommitFileBytes(j).Some? && CommitFileBytes(k).Some? && CommitFileBytes(k).value == CommitFileBytes(j).value + rest
    ensures rest == [] && j == k
  {
    CommitFileRoundTrips(j, rest);
    CommitFileRoundTrips(k, []);
    assert CommitFileBytes(k).value + [] == CommitFileBytes(k).value;
  }

  // -------------------------------------------------------------------------
  // refCommitsRowKeyMapper
  // -------------------------------------------------------------------------

  function RefCommitBytes(k: RefCommitKey): Option<seq<byte>> {
    if !IsHash(k.hash) then None
    else Some(EncodeString(k.repository) + (k.hash + (EncodeString(k.refName) + EncodeInt64(k.index))))
  }

  function DecodeRefCommit(bs: seq<byte>): Parse<RefCommitKey> {
    var (repository, bs) :- DecodeString(bs);
    var (hash, bs) :- DecodeHash(bs);
    var (refName, bs) :- DecodeString(bs);
    var (index, bs) :- DecodeInt64(bs);
    Done(RefCommitKey(repository, hash, refName, index), bs)
  }

  lemma RefCommitRoundTrips(k: RefCommitKey, rest: seq<byte>)
    requires RefCommitBytes(k).Some?
    ensures DecodeRefCommit(RefCommitBytes(k).value + rest) == Done(k, rest)
  {
    var names := EncodeString(k.refName) + EncodeInt64(k.index);
    Associative(EncodeString(k.repository), k.hash + names, rest);
    StringRoundTrips(k.repository, k.hash + names + rest);
    Associative(k.hash, names, rest);
    HashRoundTrips(k.hash, names + rest);
    Associative(EncodeString(k.refName), EncodeInt64(k.index), rest);
    StringRoundTrips(k.refName, EncodeInt64(k.index) + rest);
    Int64RoundTrips(k.index, rest);
  }

  lemma RefCommitIsPrefixFree(j: RefCommitKey, k: RefCommitKey, rest: seq<byte>)
    requires RefCommitBytes(j).Some? && RefCommitBytes(k).Some? && RefCommitBytes(k).value == RefCommitBytes(j).value + rest
    ensures rest == [] && j == k
  {
    RefCommitRoundTrips(j, rest);
    RefCommitRoundTrips(k, []);
    assert RefCommitBytes(k).value + [] == RefCommitBytes(k).value;
  }
}
