/** The server's partitioned store: PARTITION_COUNT maps from key to value.
    A request reaches the partition its key_hash selects; the server does
    not hash the key itself, so it trusts the hash the client sent. */
module Store {
  import opened Bytes

  const PARTITION_COUNT: nat := 1024

  type Key = seq<byte>
  type Value = seq<byte>
  type Partition = map<Key, Value>

  /** The abstract contents of the store, one map per partition. */
  type Shards = s: seq<Partition> | |s| == PARTITION_COUNT
    witness seq(PARTITION_COUNT, _ => map[])

  function EmptyShards(): (s: Shards)
    ensures forall p | 0 <= p < PARTITION_COUNT :: s[p] == map[]
  {
    seq(PARTITION_COUNT, _ => map[])
  }

  /** The partition a request addresses: key_hash modulo PARTITION_COUNT. */
  function PartitionOf(keyHash: u64): (p: nat)
    ensures p < PARTITION_COUNT
    ensures keyHash < PARTITION_COUNT ==> p == keyHash
  {
    keyHash % PARTITION_COUNT
  }

  /** The value a request with this hash and key finds, if any. */
  function Lookup(s: Shards, keyHash: u64, key: Key): Option<Value>
  {
    var part := s[PartitionOf(keyHash)];
    if key in part then Some(part[key]) else None
  }

  /** Two requests reach the same entry when their hashes select the same
      partition and their keys are equal. */
  predicate SameEntry(keyHash1: u64, key1: Key, keyHash2: u64, key2: Key)
  {
    PartitionOf(keyHash1) == PartitionOf(keyHash2) && key1 == key2
  }

  /** PUT's effect: insert or overwrite one entry of one partition. */
  function Insert(s: Shards, keyHash: u64, key: Key, value: Value): (t: Shards)
    ensures Lookup(t, keyHash, key) == Some(value)
    ensures forall h: u64, k: Key | !SameEntry(h, k, keyHash, key) :: Lookup(t, h, k) == Lookup(s, h, k)
    ensures forall p | 0 <= p < PARTITION_COUNT && p != PartitionOf(keyHash) :: t[p] == s[p]
  {
    var p := PartitionOf(keyHash);
    s[p := s[p][key := value]]
  }

  /** DEL's effect: remove one entry, if present, from one partition. */
  function Erase(s: Shards, keyHash: u64, key: Key): (t: Shards)
    ensures Lookup(t, keyHash, key) == None
    ensures forall h: u64, k: Key | !SameEntry(h, k, keyHash, key) :: Lookup(t, h, k) == Lookup(s, h, k)
    ensures forall p | 0 <= p < PARTITION_COUNT && p != PartitionOf(keyHash) :: t[p] == s[p]
    ensures Lookup(s, keyHash, key) == None ==> t == s
  {
    var p := PartitionOf(keyHash);
    assert key !in s[p] ==> s[p] - {key} == s[p] && s[p := s[p]] == s;
    s[p := s[p] - {key}]
  }

  /** Requests are addressed by partition, not by hash: two hashes that
      select the same partition see the same entry for a key. */
  lemma {:induction false} HashesShareEntries(s: Shards, keyHash1: u64, keyHash2: u64, key: Key)
    requires keyHash1 % PARTITION_COUNT == keyHash2 % PARTITION_COUNT
    ensures Lookup(s, keyHash1, key) == Lookup(s, keyHash2, key)
    ensures forall v :: Lookup(Insert(s, keyHash1, key, v), keyHash2, key) == Some(v)
  {
  }

  /** The store, updated in place: an array of PARTITION_COUNT maps.  Each
      operation reads or writes the one map its caller selected. */
  class PartitionedStore {
    const partitions: array<Partition>

    ghost predicate Valid()
    {
      partitions.Length == PARTITION_COUNT
    }

    ghost function Contents(): Shards
      reads partitions
      requires Valid()
    {
      partitions[..]
    }

    constructor ()
      ensures Valid() && fresh(partitions)
      ensures Contents() == EmptyShards()
    {
      partitions := new Partition[PARTITION_COUNT](_ => map[]);
    }

    /** The value stored under key in one partition. */
    method Find(partition: nat, key: Key) returns (value: Option<Value>)
      requires Valid() && partition < PARTITION_COUNT
      ensures value.Some? <==> key in partitions[partition]
      ensures value.Some? ==> value.value == partitions[partition][key]
    {
      if key in partitions[partition] {
        value := Some(partitions[partition][key]);
      } else {
        value := None;
      }
    }

    /** Insert or overwrite key in one partition. */
    method Assign(partition: nat, key: Key, value: Value)
      requires Valid() && partition < PARTITION_COUNT
      modifies partitions
      ensures Valid()
      ensures partitions[..] == old(partitions[..])[partition := old(partitions[partition])[key := value]]
    {
      partitions[partition] := partitions[partition][key := value];
    }

    /** Remove key from one partition; true when it was there. */
    method Remove(partition: nat, key: Key) returns (erased: bool)
      requires Valid() && partition < PARTITION_COUNT
      modifies partitions
      ensures Valid()
      ensures erased <==> key in old(partitions[partition])
      ensures partitions[..] == old(partitions[..])[partition := old(partitions[partition]) - {key}]
    {
      erased := key in partitions[partition];
      partitions[partition] := partitions[partition] - {key};
    }
  }
}
