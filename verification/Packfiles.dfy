// Finding objects in packfiles or loose, and decoding them from there.

module Packfiles {
  import opened Objects

  // The index of a packfile knows the offset of each hash, and the packfile what is at an offset.
  datatype Pack = Pack(name: Hash, offsets: map<Hash, nat>, at: map<nat, Hash>)

  // Git names an object by its content, so one map holds what every hash stands for.
  datatype Store = Store(objects: map<Hash, Object>, packs: seq<Pack>, loose: set<Hash>)

  type Pool = map<string, Store>

  const ZERO_HASH: Hash := Hash(0)

  // Where an object is; a negative offset says that it is loose.
  datatype Location = Location(offset: int, packfile: Hash)

  datatype Decoded = Decoded(hash: Hash, content: Object) | NotFound | NoRepository | NoPackfile

  // -------------------------------------------------------------------------
  // Finding
  // -------------------------------------------------------------------------

  function FindIn(packs: seq<Pack>, h: Hash): Option<Location> {
    if packs == [] then None
    else if h in packs[0].offsets then Some(Location(packs[0].offsets[h], packs[0].name))
    else FindIn(packs[1..], h)
  }

  // None is an object the repository does not have.
  function Locate(store: Store, h: Hash): Option<Location> {
    match FindIn(store.packs, h)
    case Some(l) => Some(l)
    case None => if h in store.loose then Some(Location(-1, ZERO_HASH)) else None
  }

  class RepositoryIndex {
    const store: Store

    constructor (store: Store)
      ensures this.store == store
    {
      this.store := store;
    }

    method Find(h: Hash) returns (r: Option<Location>)
      ensures r == Locate(store, h)
    {
      for i := 0 to |store.packs|
        invariant FindIn(store.packs, h) == FindIn(store.packs[i..], h)
      {
        var idx := store.packs[i];
        if h in idx.offsets {
          return Some(Location(idx.offsets[h], idx.name));
        }
        assert store.packs[i..][1..] == store.packs[i + 1..];
      }
      return if h in store.loose then Some(Location(-1, ZERO_HASH)) else None;
    }
  }

  // -------------------------------------------------------------------------
  // Decoding
  // -------------------------------------------------------------------------

  function PackNamed(packs: seq<Pack>, name: Hash): Option<Pack> {
    if packs == [] then None else if packs[0].name == name then Some(packs[0]) else PackNamed(packs[1..], name)
  }

  function Get(store: Store, h: Hash): Decoded {
    if h in store.objects then Decoded(h, store.objects[h]) else NotFound
  }

  function GetAt(store: Store, pack: Pack, offset: nat): Decoded {
    if offset in pack.at then Get(store, pack.at[offset]) else NotFound
  }

  // What a decoder that was never used before answers.
  function DecodeAt(pool: Pool, repository: string, packfile: Hash, offset: int, h: Hash): Decoded {
    if repository !in pool then NoRepository
    else
      var store := pool[repository];
      if offset >= 0 then
        match PackNamed(store.packs, packfile)
        case None => NoPackfile
        case Some(pack) => GetAt(store, pack, offset)
      else if h in store.loose then Get(store, h)
      else NotFound
  }

  // An open packfile.
  class RepoObjectDecoder {
    const repo: string
    const hash: Hash
    const store: Store
    const pack: Pack

    constructor (repo: string, hash: Hash, store: Store, pack: Pack)
      ensures this.repo == repo && this.hash == hash && this.store == store && this.pack == pack
    {
      this.repo, this.hash, this.store, this.pack := repo, hash, store, pack;
    }

    predicate Equals(repo: string, hash: Hash) {
      this.repo == repo && this.hash == hash
    }
  }

  // Keeps the last packfile open.
  class ObjectDecoder {
    const pool: Pool
    var decoder: RepoObjectDecoder?

    ghost predicate Valid()
      reads this
    {
      decoder != null ==>
        && decoder.repo in pool && decoder.store == pool[decoder.repo]
        && PackNamed(decoder.store.packs, decoder.hash) == Some(decoder.pack)
    }

    constructor (pool: Pool)
      ensures this.pool == pool && Valid()
    {
      this.pool, decoder := pool, null;
    }

    // Whatever was decoded before, the answer is that of a decoder that was never used.
    method Decode(repository: string, packfile: Hash, offset: int, h: Hash) returns (r: Decoded)
      requires Valid()
      modifies this
      ensures Valid()
      ensures r == DecodeAt(pool, repository, packfile, offset, h)
    {
      if repository !in pool {
        return NoRepository;
      }
      var store := pool[repository];
      if offset >= 0 {
        if decoder == null || !decoder.Equals(repository, packfile) {
          decoder := null;
          var pack := PackNamed(store.packs, packfile);
          if pack.None? {
            return NoPackfile;
          }
          decoder := new RepoObjectDecoder(repository, packfile, store, pack.value);
        }
        return GetAt(decoder.store, decoder.pack, offset);
      }
      return if h in store.loose then Get(store, h) else NotFound;
    }
  }

  // -------------------------------------------------------------------------
  // Finding is the inverse of decoding
  // -------------------------------------------------------------------------

  // Each index says where its packfile has an object, and each packfile has a name of its own.
  ghost predicate Sound(store: Store) {
    && (forall p, h :: p in store.packs && h in p.offsets ==> p.offsets[h] in p.at && p.at[p.offsets[h]] == h)
    && (forall i, j :: 0 <= i < j < |store.packs| ==> store.packs[i].name != store.packs[j].name)
  }

  lemma {:induction false} FoundInPack(packs: seq<Pack>, h: Hash) returns (k: nat)
    requires FindIn(packs, h).Some?
    ensures k < |packs| && h in packs[k].offsets && FindIn(packs, h) == Some(Location(packs[k].offsets[h], packs[k].name))
  {
    if h in packs[0].offsets {
      k := 0;
    } else {
      k := FoundInPack(packs[1..], h);
      k := k + 1;
    }
  }

  lemma {:induction false} NamedPackIs(packs: seq<Pack>, k: nat)
    requires k < |packs| && forall i, j :: 0 <= i < j < |packs| ==> packs[i].name != packs[j].name
    ensures PackNamed(packs, packs[k].name) == Some(packs[k])
  {
    if k > 0 {
      NamedPackIs(packs[1..], k - 1);
    }
  }

  // Decoding the location found for a hash gives the object with that hash. It is found exactly if it
  // is packed or loose.
  lemma FindInvertsDecode(pool: Pool, repository: string, h: Hash)
    requires repository in pool && Sound(pool[repository])
    ensures var store := pool[repository];
            && (Locate(store, h).Some? <==> h in store.loose || exists p :: p in store.packs && h in p.offsets)
            && (Locate(store, h).Some? ==>
                  var l := Locate(store, h).value;
                  DecodeAt(pool, repository, l.packfile, l.offset, h) == Get(store, h))
  {
    var store := pool[repository];
    if FindIn(store.packs, h).Some? {
      var k := FoundInPack(store.packs, h);
      NamedPackIs(store.packs, k);
      assert store.packs[k] in store.packs;
    } else {
      NotFoundInPacks(store.packs, h);
    }
  }

  lemma {:induction false} NotFoundInPacks(packs: seq<Pack>, h: Hash)
    requires FindIn(packs, h).None?
    ensures forall p :: p in packs ==> h !in p.offsets
  {
    if packs != [] {
      NotFoundInPacks(packs[1..], h);
      assert packs == [packs[0]] + packs[1..];
    }
  }

  // -------------------------------------------------------------------------
  // Which packfile is searched
  // -------------------------------------------------------------------------

  // Packfile k is the first whose index has the hash.
  ghost predicate FirstWith(packs: seq<Pack>, h: Hash, k: nat) {
    k < |packs| && h in packs[k].offsets && forall j :: 0 <= j < k ==> h !in packs[j].offsets
  }

  lemma {:induction false} FoundFirst(packs: seq<Pack>, h: Hash, k: nat)
    requires FirstWith(packs, h, k)
    ensures FindIn(packs, h) == Some(Location(packs[k].offsets[h], packs[k].name))
  {
    if k > 0 {
      assert h !in packs[0].offsets;
      FoundFirst(packs[1..], h, k - 1);
    }
  }

  // An object is located in the first packfile that has it, even if it is loose as well; otherwise it is
  // loose, at no offset and in no packfile, or not there.
  lemma LocatedFirst(store: Store, h: Hash, k: nat)
    ensures FirstWith(store.packs, h, k) ==>
              Locate(store, h) == Some(Location(store.packs[k].offsets[h], store.packs[k].name))
    ensures (forall p :: p in store.packs ==> h !in p.offsets) ==>
              Locate(store, h) == if h in store.loose then Some(Location(-1, Hash(0))) else None
  {
    if FirstWith(store.packs, h, k) {
      FoundFirst(store.packs, h, k);
    }
    if FindIn(store.packs, h).Some? {
      var j := FoundInPack(store.packs, h);
      assert store.packs[j] in store.packs;
    }
  }

  lemma {:induction false} NamedFirst(packs: seq<Pack>, name: Hash, k: nat)
    requires k < |packs| && packs[k].name == name && forall j :: 0 <= j < k ==> packs[j].name != name
    ensures PackNamed(packs, name) == Some(packs[k])
  {
    if k > 0 {
      NamedFirst(packs[1..], name, k - 1);
    }
  }

  lemma {:induction false} NoneNamed(packs: seq<Pack>, name: Hash)
    requires forall p :: p in packs ==> p.name != name
    ensures PackNamed(packs, name) == None
  {
    if packs != [] {
      NoneNamed(packs[1..], name);
    }
  }

  // An offset is looked up in the packfile of that name; below zero the hash has to be loose. Nothing is
  // taken from another repository.
  lemma DecodedFrom(pool: Pool, repository: string, packfile: Hash, offset: int, h: Hash, k: nat)
    ensures repository !in pool ==> DecodeAt(pool, repository, packfile, offset, h) == NoRepository
    ensures repository in pool && offset < 0 ==>
              DecodeAt(pool, repository, packfile, offset, h)
              == if h in pool[repository].loose && h in pool[repository].objects
                 then Decoded(h, pool[repository].objects[h]) else NotFound
    ensures repository in pool && offset >= 0 && (forall p :: p in pool[repository].packs ==> p.name != packfile) ==>
              DecodeAt(pool, repository, packfile, offset, h) == NoPackfile
    ensures repository in pool && offset >= 0 && k < |pool[repository].packs| && pool[repository].packs[k].name == packfile
            && (forall j :: 0 <= j < k ==> pool[repository].packs[j].name != packfile) ==>
              var at := pool[repository].packs[k].at;
              DecodeAt(pool, repository, packfile, offset, h)
              == if offset in at && at[offset] in pool[repository].objects
                 then Decoded(at[offset], pool[repository].objects[at[offset]]) else NotFound
  {
    if repository in pool {
      var packs := pool[repository].packs;
      if k < |packs| && packs[k].name == packfile && forall j :: 0 <= j < k ==> packs[j].name != packfile {
        NamedFirst(packs, packfile, k);
      }
      if forall p :: p in packs ==> p.name != packfile {
        NoneNamed(packs, packfile);
      }
    }
  }
}
