/**
 * The OpenDHT collaborator as `store_file` and `restore_file` use it: content hashes,
 * their text form in the manifest, `put` and a blocking `get`.
 */
module Dht {
  import opened Bytes

  /** A `dht::InfoHash`: the 160-bit digest that keys a value. */
  datatype InfoHash = InfoHash(digest: Bytes)

  /**
   * The foreign functions the archiver relies on, as parameters: `InfoHash::get`
   * (SHA-1 of the bytes), the hex text `operator<<` writes, and the parse of
   * `InfoHash(string)`. Being functions, they are deterministic: equal chunks get equal
   * addresses.
   */
  datatype Codec = Codec(
    hash: Bytes -> InfoHash,
    toHex: InfoHash -> Bytes,
    fromHex: Bytes -> InfoHash)

  /** What is assumed of the foreign text form: it parses back and holds no newline. */
  ghost predicate ValidCodec(codec: Codec) {
    && (forall h :: codec.fromHex(codec.toHex(h)) == h)
    && (forall h :: NEWLINE !in codec.toHex(h))
  }

  /** One submitted `node->put(hash, value, ...)`. */
  datatype PutRequest = PutRequest(key: InfoHash, value: Bytes)

  /** The values a `get` returns for a key from a snapshot of the network: none when
      the key is unknown. */
  function Lookup(values: map<InfoHash, seq<Bytes>>, key: InfoHash): seq<Bytes> {
    if key in values then values[key] else []
  }

  /**
   * A running `dht::DhtRunner`. Puts are asynchronous and may fail, so they are only
   * recorded; `values` is what the network answers to a `get` during the run.
   */
  class DhtNode {
    var puts: seq<PutRequest>
    var gets: seq<InfoHash>
    var values: map<InfoHash, seq<Bytes>>

    constructor (network: map<InfoHash, seq<Bytes>>)
      ensures puts == [] && gets == [] && values == network
    {
      puts, gets, values := [], [], network;
    }

    /** `node->put(key, value, ...)`: submitted, not awaited. */
    method Put(key: InfoHash, value: Bytes)
      modifies this`puts
      ensures puts == old(puts) + [PutRequest(key, value)]
    {
      puts := puts + [PutRequest(key, value)];
    }

    /** `node->get(key).get()`: blocks until the network answers with all values it has
        for the key, possibly none. */
    method Get(key: InfoHash) returns (vs: seq<Bytes>)
      modifies this`gets
      ensures gets == old(gets) + [key]
      ensures vs == Lookup(values, key)
    {
      gets := gets + [key];
      vs := Lookup(values, key);
    }
  }
}
