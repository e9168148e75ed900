// Writing the keys of the indexes to a buffer and reading them from one.

module IndexBuffers {
  import opened Objects
  import opened IndexCodecs
  import opened IndexKeys

  // Each writer stops at the first hash of the wrong size. What it wrote until then is not used.

  method WriteLocation(buf: Buffer, k: PackKey) returns (ok: bool)
    modifies buf
    ensures ok <==> HasLocation(k)
    ensures ok ==> buf.bytes == old(buf.bytes) + EncodeLocation(k)
  {
    buf.WriteBool(k.offset >= 0);
    Associative(old(buf.bytes), EncodeBool(k.offset >= 0), if k.offset >= 0 then EncodeInt64(k.offset) else k.hash);
    if k.offset >= 0 {
      buf.WriteInt64(k.offset);
      return true;
    }
    ok := buf.WriteHash(k.hash);
  }

  method WritePack(buf: Buffer, k: PackKey) returns (ok: bool)
    modifies buf
    ensures ok <==> PackBytes(k).Some?
    ensures ok ==> buf.bytes == old(buf.bytes) + EncodePack(k)
  {
    buf.WriteString(k.repository);
    ok := buf.WriteHash(k.packfile);
    if !ok {
      return;
    }
    Associative(old(buf.bytes) + EncodeString(k.repository), k.packfile, EncodeLocation(k));
    Associative(old(buf.bytes), EncodeString(k.repository), k.packfile + EncodeLocation(k));
    ok := WriteLocation(buf, k);
  }

  method EncodePackKey(k: PackKey) returns (r: Option<seq<byte>>)
    ensures r == PackBytes(k)
  {
    var buf := new Buffer([]);
    var ok := WritePack(buf, k);
    assert [] + EncodePack(k) == EncodePack(k);
    r := if ok then Some(buf.bytes) else None;
  }

  method EncodeFileKey(k: FileKey) returns (r: Option<seq<byte>>)
    ensures r == FileBytes(k)
  {
    var buf := new Buffer([]);
    var ok := WritePack(buf, k.at);
    if !ok {
      return None;
    }
    ghost var at := EncodePack(k.at);
    assert [] + at == at;
    buf.WriteString(k.name);
    buf.WriteInt64(k.mode);
    ok := buf.WriteHash(k.tree);
    Associative(at + EncodeString(k.name), EncodeInt64(k.mode), k.tree);
    Associative(at, EncodeString(k.name), EncodeInt64(k.mode) + k.tree);
    r := if ok then Some(buf.bytes) else None;
  }

  method EncodeTreeEntryKey(k: TreeEntryKey) returns (r: Option<seq<byte>>)
    ensures r == TreeEntryBytes(k)
  {
    var buf := new Buffer([]);
    buf.WriteString(k.at.repository);
    assert [] + EncodeString(k.at.repository) == EncodeString(k.at.repository);
    // The result is not looked at.
    var packed := buf.WriteHash(k.at.packfile);
    ghost var packfile := if packed then k.at.packfile else [];
    var ok := WriteLocation(buf, k.at);
    if !ok {
      return None;
    }
    Associative(EncodeString(k.at.repository), packfile, EncodeLocation(k.at));
    assert EncodeLocation(k.at.(packfile := packfile)) == EncodeLocation(k.at);
    buf.WriteInt64(k.pos);
    r := Some(buf.bytes);
  }

  method EncodeCommitFileKey(k: CommitFileKey) returns (r: Option<seq<byte>>)
    ensures r == CommitFileBytes(k)
  {
    var buf := new Buffer([]);
    buf.WriteString(k.repository);
    var ok := buf.WriteHash(k.packfile);
    if !ok {
      return None;
    }
    ok := buf.WriteHash(k.hash);
    if !ok {
      return None;
    }
    ghost var repository := EncodeString(k.repository);
    assert [] + repository == repository;
    Associative(repository + k.packfile, k.hash, CommitFileTail(k));
    Associative(repository, k.packfile, k.hash + CommitFileTail(k));
    ok := WriteCommitFileTail(buf, k);
    r := if ok then Some(buf.bytes) else None;
  }

  method WriteCommitFileTail(buf: Buffer, k: CommitFileKey) returns (ok: bool)
    modifies buf
    ensures ok <==> IsHash(k.tree) && IsHash(k.commit)
    ensures ok ==> buf.bytes == old(buf.bytes) + CommitFileTail(k)
  {
    buf.WriteInt64(k.offset);
    buf.WriteString(k.name);
    buf.WriteInt64(k.mode);
    ok := buf.WriteHash(k.tree);
    if !ok {
      return;
    }
    ok := buf.WriteHash(k.commit);
    ghost var offset, name, mode := EncodeInt64(k.offset), EncodeString(k.name), EncodeInt64(k.mode);
    Associative(old(buf.bytes) + offset + name + mode, k.tree, k.commit);
    Associative(old(buf.bytes) + offset + name, mode, k.tree + k.commit);
    Associative(old(buf.bytes) + offset, name, mode + (k.tree + k.commit));
    Associative(old(buf.bytes), offset, name + (mode + (k.tree + k.commit)));
  }

  method EncodeRefCommitKey(k: RefCommitKey) returns (r: Option<seq<byte>>)
    ensures r == RefCommitBytes(k)
  {
    var buf := new Buffer([]);
    buf.WriteString(k.repository);
    var ok := buf.WriteHash(k.hash);
    if !ok {
      return None;
    }
    buf.WriteString(k.refName);
    buf.WriteInt64(k.index);
    ghost var repository, name, index := EncodeString(k.repository), EncodeString(k.refName), EncodeInt64(k.index);
    assert [] + repository == repository;
    Associative(repository + k.hash, name, index);
    Associative(repository, k.hash, name + index);
    r := Some(buf.bytes);
  }

  // -------------------------------------------------------------------------
  // Readers
  // -------------------------------------------------------------------------

  method ReadPack(buf: Buffer) returns (r: Parse<PackKey>)
    modifies buf
    ensures r == DecodePack(old(buf.bytes)) && (r.Done? ==> buf.bytes == r.rest)
  {
    var repository := buf.ReadString();
    if repository.IsFailure() {
      return repository.PropagateFailure();
    }
    var packfile := buf.ReadHash();
    if packfile.IsFailure() {
      return packfile.PropagateFailure();
    }
    var packed := buf.ReadBool();
    if packed.IsFailure() {
      return packed.PropagateFailure();
    }
    if packed.value {
      var offset := buf.ReadInt64();
      if offset.IsFailure() {
        return offset.PropagateFailure();
      }
      return Done(PackKey(repository.value, packfile.value, offset.value, []), buf.bytes);
    }
    var hash := buf.ReadHash();
    if hash.IsFailure() {
      return hash.PropagateFailure();
    }
    return Done(PackKey(repository.value, packfile.value, -1, hash.value), buf.bytes);
  }

  method DecodePackKey(data: seq<byte>) returns (r: Parse<PackKey>)
    ensures r == DecodePack(data)
  {
    var buf := new Buffer(data);
    r := ReadPack(buf);
  }

  method DecodeFileKey(data: seq<byte>) returns (r: Parse<FileKey>)
    ensures r == DecodeFile(data)
  {
    var buf := new Buffer(data);
    var at := ReadPack(buf);
    if at.IsFailure() {
      return at.PropagateFailure();
    }
    var name := buf.ReadString();
    if name.IsFailure() {
      return name.PropagateFailure();
    }
    var mode := buf.ReadInt64();
    if mode.IsFailure() {
      return mode.PropagateFailure();
    }
    var tree := buf.ReadHash();
    if tree.IsFailure() {
      return tree.PropagateFailure();
    }
    return Done(FileKey(at.value, name.value, mode.value, tree.value), buf.bytes);
  }

  method DecodeTreeEntryKey(data: seq<byte>) returns (r: Parse<TreeEntryKey>)
    ensures r == DecodeTreeEntry(data)
  {
    var buf := new Buffer(data);
    var at := ReadPack(buf);
    if at.IsFailure() {
      return at.PropagateFailure();
    }
    var pos := buf.ReadInt64();
    if pos.IsFailure() {
      return pos.PropagateFailure();
    }
    return Done(TreeEntryKey(at.value, pos.value), buf.bytes);
  }

  method DecodeCommitFileKey(data: seq<byte>) returns (r: Parse<CommitFileKey>)
    ensures r == DecodeCommitFile(data)
  {
    var buf := new Buffer(data);
    var repository := buf.ReadString();
    if repository.IsFailure() {
      return repository.PropagateFailure();
    }
    var packfile := buf.ReadHash();
    if packfile.IsFailure() {
      return packfile.PropagateFailure();
    }
    var hash := buf.ReadHash();
    if hash.IsFailure() {
      return hash.PropagateFailure();
    }
    var offset := buf.ReadInt64();
    if offset.IsFailure() {
      return offset.PropagateFailure();
    }
    var name := buf.ReadString();
    if name.IsFailure() {
      return name.PropagateFailure();
    }
    var mode := buf.ReadInt64();
    if mode.IsFailure() {
      return mode.PropagateFailure();
    }
    var tree := buf.ReadHash();
    if tree.IsFailure() {
      return tree.PropagateFailure();
    }
    var commit := buf.ReadHash();
    if commit.IsFailure() {
      return commit.PropagateFailure();
    }
    return Done(CommitFileKey(repository.value, packfile.value, hash.value, offset.value, name.value, mode.value, tree.value,
                              commit.value), buf.bytes);
  }

  method DecodeRefCommitKey(data: seq<byte>) returns (r: Parse<RefCommitKey>)
    ensures r == DecodeRefCommit(data)
  {
    var buf := new Buffer(data);
    var repository := buf.ReadString();
    if repository.IsFailure() {
      return repository.PropagateFailure();
    }
    var hash := buf.ReadHash();
    if hash.IsFailure() {
      return hash.PropagateFailure();
    }
    var refName := buf.ReadString();
    if refName.IsFailure() {
      return refName.PropagateFailure();
    }
    var index := buf.ReadInt64();
    if index.IsFailure() {
      return index.PropagateFailure();
    }
    return Done(RefCommitKey(repository.value, hash.value, refName.value, index.value), buf.bytes);
  }
}
