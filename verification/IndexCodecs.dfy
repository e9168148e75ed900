// The bytes index keys are made of: integers, strings, hashes and booleans.

module IndexCodecs {
  import opened Objects

  type byte = x: nat | x < 256

  const TWO_64: nat := 0x1_0000_0000_0000_0000

  type int64 = x: int | -0x8000_0000_0000_0000 <= x < 0x8000_0000_0000_0000
  type uint64 = x: nat | x < 0x1_0000_0000_0000_0000

  // Strings are bytes, and their length is an int64.
  type Str = s: seq<byte> | |s| < 0x8000_0000_0000_0000

  const HASH_SIZE: nat := 40

  // Reading either gives a value and the bytes after it, or fails; a negative length crashes.
  datatype Parse<+T> = Done(value: T, rest: seq<byte>) | Failed | Panicked {
    predicate IsFailure() {
      !Done?
    }

    function PropagateFailure<U>(): Parse<U>
      requires !Done?
    {
      if Failed? then Failed else Panicked
    }

    function Extract(): (T, seq<byte>)
      requires Done?
    {
      (value, rest)
    }
  }

  // -------------------------------------------------------------------------
  // Integers
  // -------------------------------------------------------------------------

  // The conversions and shifts of 64-bit machine integers.
  function ToUnsigned(n: int64): uint64 {
    if n < 0 then n + TWO_64 else n
  }

  function ShiftLeft(ux: uint64): uint64 {
    (2 * ux) % TWO_64
  }

  function Not(ux: uint64): uint64 {
    TWO_64 - 1 - ux
  }

  function Fold(n: int64): uint64 {
    var ux := ShiftLeft(ToUnsigned(n));
    if n < 0 then Not(ux) else ux
  }

  function Unfold(ux: uint64): int64 {
    var x := ux / 2;
    if ux % 2 != 0 then -1 - x else x
  }

  // Numbers of small size become small unsigned numbers: 0, -1, 1, -2 and so on are 0, 1, 2, 3.
  lemma FoldIsZigZag(n: int64)
    ensures Fold(n) == if n >= 0 then 2 * n else -2 * n - 1
  {
    if n < 0 {
      assert 2 * (n + TWO_64) == (2 * n + TWO_64) + TWO_64;
      assert (2 * (n + TWO_64)) % TWO_64 == 2 * n + TWO_64;
    }
  }

  // Each is the inverse of the other, the smallest number included.
  lemma FoldInverts(n: int64, ux: uint64)
    ensures Unfold(Fold(n)) == n
    ensures Fold(Unfold(ux)) == ux
  {
    FoldIsZigZag(n);
    FoldIsZigZag(Unfold(ux));
  }

  // Little-endian bytes.
  function Bytes(ux: nat, n: nat): (bs: seq<byte>)
    ensures |bs| == n
  {
    if n == 0 then [] else [ux % 256] + Bytes(ux / 256, n - 1)
  }

  function Unbytes(bs: seq<byte>): nat {
    if bs == [] then 0 else bs[0] + 256 * Unbytes(bs[1..])
  }

  function Power(n: nat): nat {
    if n == 0 then 1 else 256 * Power(n - 1)
  }

  lemma {:induction false} UnbytesInverts(ux: nat, n: nat)
    requires ux < Power(n)
    ensures Unbytes(Bytes(ux, n)) == ux
  {
    if n > 0 {
      UnbytesInverts(ux / 256, n - 1);
    }
  }

  lemma {:induction false} UnbytesIsBounded(bs: seq<byte>)
    ensures Unbytes(bs) < Power(|bs|)
  {
    if bs != [] {
      UnbytesIsBounded(bs[1..]);
    }
  }

  lemma Power8()
    ensures Power(8) == TWO_64
  {
    assert Power(4) == 0x1_0000_0000;
    assert Power(8) == 256 * 256 * 256 * 256 * Power(4);
  }

  function EncodeInt64(n: int64): seq<byte> {
    Bytes(Fold(n), 8)
  }

  function DecodeInt64(bs: seq<byte>): Parse<int64> {
    if |bs| < 8 then Failed
    else
      var ux := Unbytes(bs[..8]);
      UnbytesIsBounded(bs[..8]);
      Power8();
      Done(Unfold(ux), bs[8..])
  }

  lemma Int64RoundTrips(n: int64, rest: seq<byte>)
    ensures DecodeInt64(EncodeInt64(n) + rest) == Done(n, rest)
  {
    Power8();
    FoldInverts(n, 0);
    UnbytesInverts(Fold(n), 8);
    assert (EncodeInt64(n) + rest)[..8] == EncodeInt64(n);
    assert (EncodeInt64(n) + rest)[8..] == rest;
  }

  // -------------------------------------------------------------------------
  // Strings, hashes and booleans
  // -------------------------------------------------------------------------

  function EncodeString(s: Str): seq<byte> {
    EncodeInt64(|s|) + s
  }

  function DecodeString(bs: seq<byte>): Parse<Str> {
    var (size, rest) :- DecodeInt64(bs);
    if size < 0 then Panicked
    else if |rest| < size then Failed
    else Done(rest[..size], rest[size..])
  }

  lemma StringRoundTrips(s: Str, rest: seq<byte>)
    ensures DecodeString(EncodeString(s) + rest) == Done(s, rest)
  {
    Int64RoundTrips(|s|, s + rest);
    Associative(EncodeInt64(|s|), s, rest);
  }

  // A crash is a negative length, nothing else.
  lemma StringPanicsIff(bs: seq<byte>)
    ensures DecodeString(bs) == Panicked <==> |bs| >= 8 && Unbytes(bs[..8]) % 2 == 1
  {
    if |bs| >= 8 {
      UnbytesIsBounded(bs[..8]);
      Power8();
    }
  }

  // None is a hash of the wrong size.
  function EncodeHash(s: Str): Option<seq<byte>> {
    if |s| != HASH_SIZE then None else Some(s)
  }

  function DecodeHash(bs: seq<byte>): Parse<Str> {
    if |bs| < HASH_SIZE then Failed else Done(bs[..HASH_SIZE], bs[HASH_SIZE..])
  }

  lemma HashRoundTrips(s: Str, rest: seq<byte>)
    requires |s| == HASH_SIZE
    ensures DecodeHash(s + rest) == Done(s, rest)
  {}

  function EncodeBool(b: bool): seq<byte> {
    [if b then 1 else 0]
  }

  function DecodeBool(bs: seq<byte>): Parse<bool> {
    if bs == [] then Failed else Done(bs[0] == 1, bs[1..])
  }

  lemma BoolRoundTrips(b: bool, rest: seq<byte>)
    ensures DecodeBool(EncodeBool(b) + rest) == Done(b, rest)
  {}

  // -------------------------------------------------------------------------
  // The buffer
  // -------------------------------------------------------------------------

  // Writers append to it and readers consume it.
  class Buffer {
    var bytes: seq<byte>

    constructor (bytes: seq<byte>)
      ensures this.bytes == bytes
    {
      this.bytes := bytes;
    }

    method WriteInt64(n: int64)
      modifies this
      ensures bytes == old(bytes) + EncodeInt64(n)
    {
      var ux := ShiftLeft(ToUnsigned(n));
      if n < 0 {
        ux := Not(ux);
      }
      bytes := bytes + Bytes(ux, 8);
    }

    method WriteString(s: Str)
      modifies this
      ensures bytes == old(bytes) + EncodeString(s)
    {
      WriteInt64(|s|);
      bytes := bytes + s;
      Associative(old(bytes), EncodeInt64(|s|), s);
    }

    // Nothing is written when the size is wrong.
    method WriteHash(s: Str) returns (ok: bool)
      modifies this
      ensures ok <==> EncodeHash(s).Some?
      ensures bytes == old(bytes) + if ok then s else []
    {
      if |s| != HASH_SIZE {
        return false;
      }
      bytes := bytes + s;
      return true;
    }

    method WriteBool(b: bool)
      modifies this
      ensures bytes == old(bytes) + EncodeBool(b)
    {
      bytes := bytes + [if b then 1 else 0];
    }

    // Takes n bytes off, or all there are; None when there are fewer.
    method ReadFull(n: nat) returns (r: Option<seq<byte>>)
      modifies this
      ensures if |old(bytes)| < n then r == None && bytes == []
              else r == Some(old(bytes)[..n]) && bytes == old(bytes)[n..]
    {
      if |bytes| < n {
        bytes := [];
        return None;
      }
      r := Some(bytes[..n]);
      bytes := bytes[n..];
    }

    method ReadInt64() returns (r: Parse<int64>)
      modifies this
      ensures r == DecodeInt64(old(bytes)) && (r.Done? ==> bytes == r.rest)
    {
      var bs := ReadFull(8);
      if bs.None? {
        return Failed;
      }
      UnbytesIsBounded(bs.value);
      Power8();
      var ux: uint64 := Unbytes(bs.value);
      var x: int64 := ux / 2;
      if ux % 2 != 0 {
        x := -1 - x;
      }
      return Done(x, bytes);
    }

    method ReadString() returns (r: Parse<Str>)
      modifies this
      ensures r == DecodeString(old(bytes)) && (r.Done? ==> bytes == r.rest)
    {
      var size := ReadInt64();
      if size.Failed? {
        return Failed;
      }
      if size.value < 0 {
        return Panicked;
      }
      var b := ReadFull(size.value);
      return if b.None? then Failed else Done(b.value, bytes);
    }

    method ReadHash() returns (r: Parse<Str>)
      modifies this
      ensures r == DecodeHash(old(bytes)) && (r.Done? ==> bytes == r.rest)
    {
      var bs := ReadFull(HASH_SIZE);
      return if bs.None? then Failed else Done(bs.value, bytes);
    }

    method ReadBool() returns (r: Parse<bool>)
      modifies this
      ensures r == DecodeBool(old(bytes)) && (r.Done? ==> bytes == r.rest)
    {
      var bs := ReadFull(1);
      return if bs.None? then Failed else Done(bs.value[0] == 1, bytes);
    }
  }
}
