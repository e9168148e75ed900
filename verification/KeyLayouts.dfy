// The layout of index keys: which bytes stand where.

module KeyLayouts {
  import opened Objects
  import opened IndexCodecs
  import opened IndexKeys

  // A number takes eight bytes, a string eight for its length and its own, a hash its own, a flag one.
  datatype Part = Number(n: int64) | Text(text: Str) | Raw(bytes: seq<byte>) | Flag(b: bool)

  function SizeOf(p: Part): nat {
    match p
    case Number(_) => 8
    case Text(s) => 8 + |s|
    case Raw(s) => |s|
    case Flag(_) => 1
  }

  function ByteAt(bs: seq<byte>, i: nat): nat
    requires i < |bs|
  {
    bs[i]
  }

  // Eight bytes, the least significant first.
  function LittleEndian(bs: seq<byte>, i: nat): nat
    requires i + 8 <= |bs|
  {
    ByteAt(bs, i) + 0x100 * ByteAt(bs, i + 1) + 0x1_0000 * ByteAt(bs, i + 2) + 0x100_0000 * ByteAt(bs, i + 3)
    + 0x1_0000_0000 * ByteAt(bs, i + 4) + 0x100_0000_0000 * ByteAt(bs, i + 5)
    + 0x1_0000_0000_0000 * ByteAt(bs, i + 6) + 0x100_0000_0000_0000 * ByteAt(bs, i + 7)
  }

  // The part stands at position i. A number n is written as 2 n, or as -2 n - 1 below zero.
  predicate Stands(bs: seq<byte>, i: nat, p: Part) {
    i + SizeOf(p) <= |bs| &&
    match p
    case Number(n) => LittleEndian(bs, i) == if n >= 0 then 2 * n else -2 * n - 1
    case Text(s) => LittleEndian(bs, i) == 2 * |s| && bs[i + 8..i + 8 + |s|] == s
    case Raw(s) => bs[i..i + |s|] == s
    case Flag(b) => bs[i] == if b then 1 else 0
  }

  // From position i to the end the bytes are these parts, one after the other.
  predicate Lays(bs: seq<byte>, i: nat, parts: seq<Part>)
    decreases |parts|
  {
    if parts == [] then i == |bs| else Stands(bs, i, parts[0]) && Lays(bs, i + SizeOf(parts[0]), parts[1..])
  }

  // -------------------------------------------------------------------------
  // Writing parts
  // -------------------------------------------------------------------------

  function BytesOf(p: Part): (bs: seq<byte>)
    ensures |bs| == SizeOf(p)
  {
    match p
    case Number(n) => EncodeInt64(n)
    case Text(s) => EncodeString(s)
    case Raw(s) => s
    case Flag(b) => EncodeBool(b)
  }

  function Flat(parts: seq<Part>): seq<byte> {
    if parts == [] then [] else BytesOf(parts[0]) + Flat(parts[1..])
  }

  lemma FourBytes(bs: seq<byte>)
    requires |bs| >= 4
    ensures Unbytes(bs) == ByteAt(bs, 0) + 0x100 * ByteAt(bs, 1) + 0x1_0000 * ByteAt(bs, 2) + 0x100_0000 * ByteAt(bs, 3)
                           + 0x1_0000_0000 * Unbytes(bs[4..])
  {
    var one, two, three := bs[1..], bs[2..], bs[3..];
    assert one[1..] == two && two[1..] == three && three[1..] == bs[4..];
    assert Unbytes(one) == bs[1] + 256 * Unbytes(two) && Unbytes(two) == bs[2] + 256 * Unbytes(three);
    assert Unbytes(three) == bs[3] + 256 * Unbytes(bs[4..]);
  }

  lemma EightBytes(bs: seq<byte>)
    requires |bs| == 8
    ensures LittleEndian(bs, 0) == Unbytes(bs)
  {
    FourBytes(bs);
    FourBytes(bs[4..]);
    assert bs[4..][4..] == [];
    assert forall k :: 0 <= k < 4 ==> ByteAt(bs[4..], k) == ByteAt(bs, k + 4);
  }

  lemma Int64IsLittleEndian(n: int64)
    ensures LittleEndian(EncodeInt64(n), 0) == if n >= 0 then 2 * n else -2 * n - 1
  {
    EightBytes(EncodeInt64(n));
    Power8();
    UnbytesInverts(Fold(n), 8);
    FoldIsZigZag(n);
  }

  // Bytes before and after change nothing.
  lemma LittleEndianWithin(pre: seq<byte>, bs: seq<byte>, post: seq<byte>)
    requires |bs| >= 8
    ensures LittleEndian(pre + bs + post, |pre|) == LittleEndian(bs, 0)
  {
    var all := pre + bs + post;
    assert forall k :: 0 <= k < 8 ==> ByteAt(all, |pre| + k) == ByteAt(bs, k);
  }

  lemma TextStands(pre: seq<byte>, s: Str, post: seq<byte>)
    ensures Stands(pre + EncodeString(s) + post, |pre|, Text(s))
  {
    var all := pre + EncodeString(s) + post;
    var size: int64 := |s|;
    LittleEndianWithin(pre, EncodeString(s), post);
    LittleEndianWithin([], EncodeInt64(size), s);
    Int64IsLittleEndian(size);
    assert [] + EncodeInt64(size) + s == EncodeString(s);
    TailStands(pre, EncodeInt64(size), s, post);
    assert all == pre + (EncodeInt64(size) + s) + post;
  }

  lemma TailStands(pre: seq<byte>, head: seq<byte>, s: seq<byte>, post: seq<byte>)
    ensures (pre + (head + s) + post)[|pre| + |head|..|pre| + |head| + |s|] == s
  {}

  lemma PartStands(pre: seq<byte>, p: Part, post: seq<byte>)
    ensures Stands(pre + BytesOf(p) + post, |pre|, p)
  {
    var all := pre + BytesOf(p) + post;
    match p
    case Number(n) =>
      LittleEndianWithin(pre, EncodeInt64(n), post);
      Int64IsLittleEndian(n);
    case Text(s) => TextStands(pre, s, post);
    case Raw(s) => assert all[|pre|..|pre| + |s|] == s;
    case Flag(b) => assert all[|pre|] == EncodeBool(b)[0];
  }

  lemma FlatHead(bs: seq<byte>, i: nat, p: Part, rest: seq<byte>)
    requires i <= |bs| && bs[i..] == BytesOf(p) + rest
    ensures Stands(bs, i, p) && i + SizeOf(p) <= |bs| && bs[i + SizeOf(p)..] == rest
  {
    assert bs == bs[..i] + BytesOf(p) + rest;
    PartStands(bs[..i], p, rest);
    DropTwice(bs, i, SizeOf(p));
  }

  lemma DropTwice<T>(s: seq<T>, i: nat, n: nat)
    requires i + n <= |s|
    ensures s[i + n..] == s[i..][n..]
  {}

  lemma {:induction false} FlatLays(bs: seq<byte>, i: nat, parts: seq<Part>)
    requires i <= |bs| && bs[i..] == Flat(parts)
    ensures Lays(bs, i, parts)
    decreases |parts|
  {
    if parts != [] {
      FlatHead(bs, i, parts[0], Flat(parts[1..]));
      FlatLays(bs, i + SizeOf(parts[0]), parts[1..]);
    }
  }

  lemma LaidOut(bs: seq<byte>, parts: seq<Part>)
    requires bs == Flat(parts)
    ensures Lays(bs, 0, parts)
  {
    assert bs[0..] == bs;
    FlatLays(bs, 0, parts);
  }

  lemma FlatMore(p: Part, parts: seq<Part>)
    ensures Flat([p] + parts) == BytesOf(p) + Flat(parts)
  {
    assert ([p] + parts)[1..] == parts;
  }

  lemma FlatStep(p: Part, a: seq<Part>, b: seq<Part>)
    requires Flat(a + b) == Flat(a) + Flat(b)
    ensures Flat([p] + a + b) == Flat([p] + a) + Flat(b)
  {
    Associative([p], a, b);
    FlatMore(p, a + b);
    FlatMore(p, a);
    Associative(BytesOf(p), Flat(a), Flat(b));
  }

  lemma {:induction false} FlatAppend(a: seq<Part>, b: seq<Part>)
    ensures Flat(a + b) == Flat(a) + Flat(b)
  {
    if a == [] {
      assert a + b == b;
    } else {
      FlatAppend(a[1..], b);
      FlatStep(a[0], a[1..], b);
      assert [a[0]] + a[1..] == a;
    }
  }

  lemma FlatOne(p: Part)
    ensures Flat([p]) == BytesOf(p)
  {
    assert [p][1..] == [];
    assert BytesOf(p) + [] == BytesOf(p);
  }

  lemma FlatTwo(p: Part, q: Part)
    ensures Flat([p, q]) == BytesOf(p) + BytesOf(q)
  {
    assert [p, q][1..] == [q];
    FlatOne(q);
  }

  // -------------------------------------------------------------------------
  // The keys
  // -------------------------------------------------------------------------

  // The repository, the packfile, whether there is an offset, and the offset or the hash.
  function PackParts(k: PackKey): seq<Part> {
    [Text(k.repository), Raw(k.packfile), Flag(k.offset >= 0), if k.offset >= 0 then Number(k.offset) else Raw(k.hash)]
  }

  lemma PackIsFlat(k: PackKey)
    ensures EncodePack(k) == Flat(PackParts(k))
  {
    var flag, at := Flag(k.offset >= 0), if k.offset >= 0 then Number(k.offset) else Raw(k.hash);
    FlatTwo(flag, at);
    FlatMore(Raw(k.packfile), [flag, at]);
    FlatMore(Text(k.repository), [Raw(k.packfile)] + [flag, at]);
    assert PackParts(k) == [Text(k.repository)] + ([Raw(k.packfile)] + [flag, at]);
  }

  lemma PackLayout(k: PackKey)
    requires PackBytes(k).Some?
    ensures Lays(PackBytes(k).value, 0,
                 [Text(k.repository), Raw(k.packfile), Flag(k.offset >= 0),
                  if k.offset >= 0 then Number(k.offset) else Raw(k.hash)])
  {
    PackIsFlat(k);
    LaidOut(PackBytes(k).value, PackParts(k));
  }

  // Then the name, the mode and the tree of the file.
  lemma FileLayout(k: FileKey)
    requires FileBytes(k).Some?
    ensures Lays(FileBytes(k).value, 0, PackParts(k.at) + [Text(k.name), Number(k.mode), Raw(k.tree)])
  {
    PackIsFlat(k.at);
    FlatTwo(Number(k.mode), Raw(k.tree));
    FlatMore(Text(k.name), [Number(k.mode), Raw(k.tree)]);
    assert [Text(k.name), Number(k.mode), Raw(k.tree)] == [Text(k.name)] + [Number(k.mode), Raw(k.tree)];
    FlatAppend(PackParts(k.at), [Text(k.name), Number(k.mode), Raw(k.tree)]);
    LaidOut(FileBytes(k).value, PackParts(k.at) + [Text(k.name), Number(k.mode), Raw(k.tree)]);
  }

  // Where the tree is, its packfile left out if that is no hash, and the position of the entry.
  lemma TreeEntryLayout(k: TreeEntryKey)
    requires TreeEntryBytes(k).Some?
    ensures Lays(TreeEntryBytes(k).value, 0,
                 [Text(k.at.repository), Raw(if |k.at.packfile| == 40 then k.at.packfile else []), Flag(k.at.offset >= 0),
                  if k.at.offset >= 0 then Number(k.at.offset) else Raw(k.at.hash), Number(k.pos)])
  {
    var at := k.at.(packfile := if |k.at.packfile| == 40 then k.at.packfile else []);
    PackIsFlat(at);
    FlatOne(Number(k.pos));
    FlatAppend(PackParts(at), [Number(k.pos)]);
    LaidOut(TreeEntryBytes(k).value, PackParts(at) + [Number(k.pos)]);
    assert PackParts(at) + [Number(k.pos)]
           == [Text(at.repository), Raw(at.packfile), Flag(at.offset >= 0),
               if at.offset >= 0 then Number(at.offset) else Raw(at.hash), Number(k.pos)];
  }

  lemma CommitFileLayout(k: CommitFileKey)
    requires CommitFileBytes(k).Some?
    ensures Lays(CommitFileBytes(k).value, 0,
                 [Text(k.repository), Raw(k.packfile), Raw(k.hash), Number(k.offset), Text(k.name), Number(k.mode),
                  Raw(k.tree), Raw(k.commit)])
  {
    var hashes := [Raw(k.tree), Raw(k.commit)];
    FlatTwo(Raw(k.tree), Raw(k.commit));
    FlatMore(Number(k.mode), hashes);
    FlatMore(Text(k.name), [Number(k.mode)] + hashes);
    var tail := [Text(k.name)] + ([Number(k.mode)] + hashes);
    FlatMore(Number(k.offset), tail);
    FlatMore(Raw(k.hash), [Number(k.offset)] + tail);
    FlatMore(Raw(k.packfile), [Raw(k.hash)] + ([Number(k.offset)] + tail));
    FlatMore(Text(k.repository), [Raw(k.packfile)] + ([Raw(k.hash)] + ([Number(k.offset)] + tail)));
    var parts := [Text(k.repository)] + ([Raw(k.packfile)] + ([Raw(k.hash)] + ([Number(k.offset)] + tail)));
    LaidOut(CommitFileBytes(k).value, parts);
    assert parts == [Text(k.repository), Raw(k.packfile), Raw(k.hash), Number(k.offset), Text(k.name), Number(k.mode),
                     Raw(k.tree), Raw(k.commit)];
  }

  lemma RefCommitLayout(k: RefCommitKey)
    requires RefCommitBytes(k).Some?
    ensures Lays(RefCommitBytes(k).value, 0, [Text(k.repository), Raw(k.hash), Text(k.refName), Number(k.index)])
  {
    FlatTwo(Text(k.refName), Number(k.index));
    FlatMore(Raw(k.hash), [Text(k.refName), Number(k.index)]);
    FlatMore(Text(k.repository), [Raw(k.hash)] + [Text(k.refName), Number(k.index)]);
    var parts := [Text(k.repository)] + ([Raw(k.hash)] + [Text(k.refName), Number(k.index)]);
    LaidOut(RefCommitBytes(k).value, parts);
    assert parts == [Text(k.repository), Raw(k.hash), Text(k.refName), Number(k.index)];
  }
}
