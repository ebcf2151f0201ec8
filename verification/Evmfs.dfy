// contracts/src/EVMFS.sol: the content-addressed log everything else is built on.
module Evmfs {

  type byte = x: int | 0 <= x < 256
  type Bytes = seq<byte>
  type Address = nat

  datatype Option<+T> = None | Some(value: T)

  /** keccak256 is idealised as injective: a hash is a constructor applied to
      the hashed bytes. Only specifications look at `preimage`. */
  datatype Hash = Keccak256(preimage: Bytes)

  /** One Store event in the chain's log. */
  datatype StoreEvent = StoreEvent(block: nat, contract: Address, hash: Hash, data: Bytes)

  /** What every log of EVMFS contracts looks like: hashes are honest, and no
      event lies outside the blocks mined so far. */
  ghost predicate WellFormed(log: seq<StoreEvent>, height: nat) {
    forall e <- log :: e.hash == Keccak256(e.data) && 0 < e.block <= height
  }

  /** The events of one transaction storing `data` in order. */
  function Events(block: nat, contract: Address, data: seq<Bytes>): seq<StoreEvent> {
    seq(|data|, i requires 0 <= i < |data| => StoreEvent(block, contract, Keccak256(data[i]), data[i]))
  }

  ghost predicate StoredAt(log: seq<StoreEvent>, contract: Address, hash: Hash, block: nat) {
    exists e :: e in log && e.contract == contract && e.hash == hash && e.block == block
  }

  ghost predicate Stored(log: seq<StoreEvent>, contract: Address, hash: Hash) {
    exists e :: e in log && e.contract == contract && e.hash == hash
  }

  /** The chain as one EVMFS contract sees it: the append-only log (events of
      other contracts included), the uploader map and the current block. */
  class Chain {
    const self: Address
    var log: seq<StoreEvent>
    var manifests: map<Hash, Address>
    var height: nat

    ghost predicate Valid()
      reads this
    {
      0 < height && WellFormed(log, height)
    }

    constructor (self: Address)
      ensures Valid() && log == [] && manifests == map[] && this.self == self
    {
      this.self := self;
      log, manifests, height := [], map[], 1;
    }

    method Store(data: Bytes) returns (hash: Hash)
      requires Valid()
      modifies this`log
      ensures Valid()
      ensures hash == Keccak256(data)
      ensures log == old(log) + Events(height, self, [data])
    {
      hash := Keccak256(data);
      log := log + [StoreEvent(height, self, hash, data)];
    }

    method StoreBatch(data: seq<Bytes>) returns (hashes: seq<Hash>)
      requires Valid()
      modifies this`log
      ensures Valid()
      ensures log == old(log) + Events(height, self, data)
      ensures |hashes| == |data| && forall i :: 0 <= i < |data| ==> hashes[i] == Keccak256(data[i])
    {
      hashes := [];
      for i := 0 to |data|
        invariant Valid()
        invariant log == old(log) + Events(height, self, data[..i])
        invariant |hashes| == i && forall k :: 0 <= k < i ==> hashes[k] == Keccak256(data[k])
      {
        hashes := hashes + [Keccak256(data[i])];
        log := log + [StoreEvent(height, self, hashes[i], data[i])];
        assert Events(height, self, data[..i + 1])
            == Events(height, self, data[..i]) + [StoreEvent(height, self, hashes[i], data[i])];
      }
      assert data[..|data|] == data;
    }

    method StoreManifest(sender: Address, data: Bytes) returns (hash: Hash)
      requires Valid()
      modifies this`log, this`manifests
      ensures Valid()
      ensures hash == Keccak256(data)
      ensures log == old(log) + Events(height, self, [data])
      ensures manifests == old(manifests)[hash := sender]
    {
      hash := Keccak256(data);
      log := log + [StoreEvent(height, self, hash, data)];
      manifests := manifests[hash := sender];
    }

    /** Blocks pass, and anyone but `me` uses this or any other contract. */
    method OtherTraffic(me: Address)
      requires Valid()
      modifies this
      ensures Valid()
      ensures old(log) <= log && old(height) <= height
      ensures forall h :: h in manifests && manifests[h] == me ==> h in old(manifests) && old(manifests)[h] == me
    {
      var contract: Address :| true;
      var data: seq<Bytes> :| true;
      var blocks: nat :| true;
      height := height + blocks;
      log := log + Events(height, contract, data);
      var sender: Address :| true;
      if contract == self && sender != me && data != [] {
        manifests := manifests[Keccak256(data[|data| - 1]) := sender];
      }
    }
  }
}
