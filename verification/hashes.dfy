/** ghash's table of hash constructors (ghash/main.go). The primitives are
    opaque; a keyed construction is recorded together with its key. */
module Hashes {
  import opened Wrappers
  import opened Text

  datatype Primitive =
    Sha256 | Sha512 | Sha3_256 | Sha3_512 | Blake2s256 | Blake2b256 | Blake2b512 | Blake3

  /** What calling a table entry constructs. */
  datatype Ctor = Unkeyed(prim: Primitive) | Keyed(prim: Primitive, key: seq<byte>)

  /** The `[32]byte` zero array the keyed generators pass as key. */
  const ZeroKey: seq<byte> :=
    [0, 0, 0, 0, 0, 0, 0, 0, 0, 0, 0, 0, 0, 0, 0, 0,
     0, 0, 0, 0, 0, 0, 0, 0, 0, 0, 0, 0, 0, 0, 0, 0]

  /** `Hashes`: algorithm name to constructor. */
  const Table: map<string, Ctor> := map[
    "sha256" := Unkeyed(Sha256),
    "sha512" := Unkeyed(Sha512),
    "sha3" := Unkeyed(Sha3_512),
    "sha3-256" := Unkeyed(Sha3_256),
    "sha3-512" := Unkeyed(Sha3_512),
    "blake2s" := Keyed(Blake2s256, ZeroKey),
    "blake2b" := Keyed(Blake2b512, ZeroKey),
    "blake2b-256" := Keyed(Blake2b256, ZeroKey),
    "blake2b-512" := Keyed(Blake2b512, ZeroKey),
    "blake3" := Keyed(Blake3, ZeroKey)
  ]

  /** A hash capability: the digest a constructor computes over a byte string. */
  type Digester = (Ctor, seq<byte>) -> seq<byte>

  /** `Hashes[name]`, with the comma-ok result as an Option. */
  function Lookup(name: string): (r: Option<Ctor>)
    ensures r.Some? <==> name in Table
    ensures r.Some? ==> r.value == Table[name]
  {
    if name in Table then Some(Table[name]) else None
  }

  /** "sha3" and "sha3-512" build the same hash, as do "blake2b" and
      "blake2b-512"; no other two names share a constructor. */
  lemma Aliases()
    ensures Lookup("sha3") == Lookup("sha3-512") == Some(Unkeyed(Sha3_512))
    ensures Lookup("blake2b") == Lookup("blake2b-512") == Some(Keyed(Blake2b512, ZeroKey))
    ensures forall a, b :: a in Table && b in Table && a != b && Table[a] == Table[b] ==>
              {a, b} == {"sha3", "sha3-512"} || {a, b} == {"blake2b", "blake2b-512"}
  {
  }

  /** Every keyed construction uses 32 zero bytes as its key, so the same
      contents always give the same digest. */
  lemma KeyedUseZeroKey(name: string)
    requires name in Table && Table[name].Keyed?
    ensures |Table[name].key| == 32
    ensures forall i :: 0 <= i < 32 ==> Table[name].key[i] == 0
  {
  }
}
