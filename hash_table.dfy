/** The chained hash table of DataStructures/examples/06_hash_table.c: DJB2
    bucket selection, insert-or-update, search and delete_key. Each chain of
    HashNodes is modelled as the sequence of its entries, head first. */
module HashTable {
  import opened Common

  /** A key: the bytes of a C string, without its terminating NUL. */
  type Key = seq<Byte>

  /** The value a plain (signed) char contributes to the hash: bytes 128..255
      read as -128..-1. */
  function CharValue(b: Byte): int
  {
    if b < 128 then b else b - 256
  }

  function CharValues(key: Key): (r: seq<int>)
    ensures |r| == |key| && forall i :: 0 <= i < |key| ==> r[i] == CharValue(key[i])
  {
    seq(|key|, i requires 0 <= i < |key| => CharValue(key[i]))
  }

  /** hash(key, table_size): DJB2 of the key's chars, reduced modulo the table size. */
  function Bucket(key: Key, tableSize: int): (b: nat)
    requires tableSize > 0
    ensures b < tableSize
  {
    Djb2(CharValues(key)) % tableSize
  }

  /** hash: the DJB2 loop over the key, then the reduction. */
  method Hash(key: Key, tableSize: int) returns (b: nat)
    requires tableSize > 0
    ensures b == Bucket(key, tableSize) && b < tableSize
  {
    var h := 5381;
    var i := 0;
    while i < |key|
      invariant 0 <= i <= |key| && h == Djb2(CharValues(key)[..i])
    {
      assert CharValues(key)[..i + 1][..i] == CharValues(key)[..i];
      h := (h * 33 + CharValue(key[i])) % TWO_32;
      i := i + 1;
    }
    assert CharValues(key)[..i] == CharValues(key);
    b := h % tableSize;
  }

  /** A HashNode's key and value. */
  datatype Entry = Entry(key: Key, value: int)

  /** The value of the first entry in chain whose key is key. */
  function Find(chain: seq<Entry>, key: Key): (r: Option<int>)
    ensures r.None? <==> forall i :: 0 <= i < |chain| ==> chain[i].key != key
  {
    if |chain| == 0 then None
    else if chain[0].key == key then Some(chain[0].value)
    else Find(chain[1..], key)
  }

  /** The entry at i is the first with its key: Find returns its value. */
  lemma {:induction false} FindAt(chain: seq<Entry>, key: Key, i: nat)
    requires i < |chain| && chain[i].key == key
    requires forall j :: 0 <= j < i ==> chain[j].key != key
    ensures Find(chain, key) == Some(chain[i].value)
  {
    if i > 0 {
      FindAt(chain[1..], key, i - 1);
    }
  }

  /** Keys of a chain are pairwise distinct. */
  predicate DistinctKeys(chain: seq<Entry>)
  {
    forall i, j :: 0 <= i < j < |chain| ==> chain[i].key != chain[j].key
  }

  /** Chain b of a table of size slots: its keys are distinct and all hash to b. */
  predicate ChainOk(chain: seq<Entry>, b: int, size: int)
    requires size > 0
  {
    DistinctKeys(chain) && forall i :: 0 <= i < |chain| ==> Bucket(chain[i].key, size) == b
  }

  /** The number of entries in all chains. */
  function TotalLen(bs: seq<seq<Entry>>): nat
  {
    if |bs| == 0 then 0 else TotalLen(bs[..|bs| - 1]) + |bs[|bs| - 1]|
  }

  lemma {:induction false} TotalLenUpdate(bs: seq<seq<Entry>>, i: nat, c: seq<Entry>)
    requires i < |bs|
    ensures TotalLen(bs[i := c]) == TotalLen(bs) - |bs[i]| + |c|
    decreases |bs|
  {
    if i < |bs| - 1 {
      assert bs[i := c][..|bs| - 1] == bs[..|bs| - 1][i := c];
      TotalLenUpdate(bs[..|bs| - 1], i, c);
    } else {
      assert bs[i := c][..|bs| - 1] == bs[..|bs| - 1];
    }
  }

  /** Replacing the value of the entry at i changes only what key finds. */
  lemma UpdateEntry(chain: seq<Entry>, i: nat, key: Key, value: int, b: int, size: int)
    requires size > 0 && i < |chain| && chain[i].key == key && ChainOk(chain, b, size)
    ensures ChainOk(chain[i := Entry(key, value)], b, size)
    ensures Find(chain[i := Entry(key, value)], key) == Some(value)
    ensures forall k :: k != key ==> Find(chain[i := Entry(key, value)], k) == Find(chain, k)
  {
    var c := chain[i := Entry(key, value)];
    FindAt(c, key, i);
    forall k | k != key ensures Find(c, k) == Find(chain, k) {
      FindSameKeys(chain, c, k);
    }
  }

  /** Two chains whose entries agree wherever either has key k find the
      same value for k. */
  lemma {:induction false} FindSameKeys(a: seq<Entry>, c: seq<Entry>, k: Key)
    requires |a| == |c| && forall j :: 0 <= j < |a| ==> (a[j].key == k || c[j].key == k) ==> a[j] == c[j]
    requires forall j :: 0 <= j < |a| ==> (a[j].key == k <==> c[j].key == k)
    ensures Find(a, k) == Find(c, k)
  {
    if |a| > 0 {
      FindSameKeys(a[1..], c[1..], k);
    }
  }

  /** Pushing a new key on the head of a chain. */
  lemma Prepend(chain: seq<Entry>, key: Key, value: int, size: int)
    requires size > 0 && ChainOk(chain, Bucket(key, size), size) && Find(chain, key).None?
    ensures ChainOk([Entry(key, value)] + chain, Bucket(key, size), size)
    ensures Find([Entry(key, value)] + chain, key) == Some(value)
    ensures forall k :: k != key ==> Find([Entry(key, value)] + chain, k) == Find(chain, k)
  {
    assert ([Entry(key, value)] + chain)[1..] == chain;
  }

  /** Unlinking the entry at i removes key and nothing else. */
  lemma Unlink(chain: seq<Entry>, i: nat, key: Key, b: int, size: int)
    requires size > 0 && i < |chain| && chain[i].key == key && ChainOk(chain, b, size)
    ensures ChainOk(chain[..i] + chain[i + 1..], b, size)
    ensures Find(chain[..i] + chain[i + 1..], key).None?
    ensures forall k :: k != key ==> Find(chain[..i] + chain[i + 1..], k) == Find(chain, k)
  {
    var c := chain[..i] + chain[i + 1..];
    forall k | k != key ensures Find(c, k) == Find(chain, k) {
      FindUnlinked(chain, i, k);
    }
  }

  lemma {:induction false} FindUnlinked(chain: seq<Entry>, i: nat, k: Key)
    requires i < |chain| && chain[i].key != k
    ensures Find(chain[..i] + chain[i + 1..], k) == Find(chain, k)
  {
    if i > 0 {
      FindUnlinked(chain[1..], i - 1, k);
      assert (chain[..i] + chain[i + 1..])[1..] == chain[1..][..i - 1] + chain[1..][i..];
    } else {
      assert chain[..i] + chain[i + 1..] == chain[1..];
    }
  }

  /** No key occurs in two places of a valid table: a key found in chain b
      lives in bucket hash(key), and chains hold each key once. */
  lemma KeyHome(bs: seq<seq<Entry>>, size: int, b1: nat, i1: nat, b2: nat, i2: nat)
    requires size > 0 && |bs| == size && forall b :: 0 <= b < size ==> ChainOk(bs[b], b, size)
    requires b1 < size && i1 < |bs[b1]| && b2 < size && i2 < |bs[b2]|
    requires bs[b1][i1].key == bs[b2][i2].key
    ensures b1 == b2 == Bucket(bs[b1][i1].key, size) && i1 == i2
  {
    assert ChainOk(bs[b1], b1, size) && ChainOk(bs[b2], b2, size);
  }

  class Table {
    const size: int
    const buckets: array<seq<Entry>>
    var count: int

    ghost predicate Valid()
      reads this, buckets
    {
      && buckets.Length == size > 0
      && (forall b :: 0 <= b < size ==> ChainOk(buckets[b], b, size))
      && count == TotalLen(buckets[..])
    }

    /** The value the table binds to key, if any. */
    ghost function Get(key: Key): Option<int>
      reads this, buckets
      requires Valid()
    {
      Find(buckets[Bucket(key, size)], key)
    }

    /** create_table: size empty chains and count 0. */
    constructor (n: int)
      requires n > 0
      ensures Valid() && size == n && count == 0 && forall k :: Get(k).None?
    {
      size := n;
      buckets := new seq<Entry>[n](_ => []);
      count := 0;
      new;
      EmptyTotal(buckets[..]);
    }

    static lemma {:induction false} EmptyTotal(bs: seq<seq<Entry>>)
      requires forall b :: 0 <= b < |bs| ==> bs[b] == []
      ensures TotalLen(bs) == 0
    {
      if |bs| > 0 {
        EmptyTotal(bs[..|bs| - 1]);
      }
    }

    /** search: 1 and the bound value when key is present; otherwise 0,
        and *value keeps what it held (prior). */
    method Search(key: Key, prior: int) returns (found: int, value: int)
      requires Valid()
      ensures found == (if Get(key).Some? then 1 else 0)
      ensures value == (if Get(key).Some? then Get(key).value else prior)
    {
      var index := Hash(key, size);
      var chain := buckets[index];
      var i := 0;
      while i < |chain|
        invariant 0 <= i <= |chain| && forall j :: 0 <= j < i ==> chain[j].key != key
      {
        if chain[i].key == key {
          FindAt(chain, key, i);
          return 1, chain[i].value;
        }
        i := i + 1;
      }
      return 0, prior;
    }

    /** insert: an existing key gets the new value and count stays; a new
        key is pushed on the head of its chain and count grows by one. */
    method Insert(key: Key, value: int)
      requires Valid()
      modifies this, buckets
      ensures Valid() && Get(key) == Some(value)
      ensures forall k :: k != key ==> Get(k) == old(Get(k))
      ensures count == old(count) + (if old(Get(key)).None? then 1 else 0)
    {
      var index := Hash(key, size);
      var chain := buckets[index];
      var i := 0;
      while i < |chain|
        invariant 0 <= i <= |chain| && forall j :: 0 <= j < i ==> chain[j].key != key
      {
        if chain[i].key == key {
          FindAt(chain, key, i);
          UpdateEntry(chain, i, key, value, index, size);
          SetChain(index, chain[i := Entry(key, value)], key, count);
          return;
        }
        i := i + 1;
      }
      Prepend(chain, key, value, size);
      SetChain(index, [Entry(key, value)] + chain, key, count + 1);
    }

    /** Replaces chain index, the home of key, by c, which finds the same
        as the old chain for every other key, and sets count to match. */
    method SetChain(index: nat, c: seq<Entry>, ghost key: Key, newCount: int)
      requires Valid() && index == Bucket(key, size) && ChainOk(c, index, size)
      requires forall k :: k != key ==> Find(c, k) == Find(buckets[index], k)
      requires newCount == count + |c| - |buckets[index]|
      modifies this, buckets
      ensures Valid() && count == newCount && Get(key) == Find(c, key)
      ensures forall k :: k != key ==> Get(k) == old(Get(k))
      ensures buckets[..] == old(buckets[..])[index := c]
    {
      TotalLenUpdate(buckets[..], index, c);
      buckets[index] := c;
      count := newCount;
    }

    /** delete_key: unlinks the entry holding key and decrements count; an
        absent key leaves the table as it was. */
    method Delete(key: Key)
      requires Valid()
      modifies this, buckets
      ensures Valid() && Get(key).None?
      ensures forall k :: k != key ==> Get(k) == old(Get(k))
      ensures count == old(count) - (if old(Get(key)).Some? then 1 else 0)
      ensures old(Get(key)).None? ==> count == old(count) && buckets[..] == old(buckets[..])
    {
      var index := Hash(key, size);
      var chain := buckets[index];
      var i := 0;
      while i < |chain|
        invariant 0 <= i <= |chain| && forall j :: 0 <= j < i ==> chain[j].key != key
      {
        if chain[i].key == key {
          FindAt(chain, key, i);
          Unlink(chain, i, key, index, size);
          SetChain(index, chain[..i] + chain[i + 1..], key, count - 1);
          return;
        }
        i := i + 1;
      }
    }
  }
}
