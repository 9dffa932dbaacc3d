/**
  The chained hash table used to intern symbols.

  Keys are byte strings hashed with a 64-bit PJW/ELF-style hash; the bucket
  count is fixed when the table is made. A chain is a sequence of nodes,
  head first: setting a key that some node already matches overwrites that
  node's data, setting a new key prepends a node holding a copy of the key.
  A node matches a query of length `len` when `strncmp(query, node.key, len)`
  is zero, so a stored key that extends the query also matches.
*/
module Hash {
  import opened Wrappers
  import opened CString

  const TopNibble: bv64 := 0xF000_0000_0000_0000
  const TwoTo60: nat := 0x1000_0000_0000_0000

  /**
    `(uint64_t)c` for a plain `char c`: `char` is signed on the x86-64
    ABI, so bytes from 0x80 up are sign-extended.
  */
  function Widen(c: byte): bv64 {
    if c < 0x80 then c as int as bv64
    else (0x1_0000_0000_0000_0000 - 256 + c as int) as bv64
  }

  /** One round of strhash64: shift in the byte, fold the top nibble down, clear it. */
  function HashStep(h: bv64, c: byte): (r: bv64)
    ensures r & TopNibble == 0
  {
    var h1 := (h << 4) + Widen(c);
    var g := h1 & TopNibble;
    var h2 := if g != 0 then h1 ^ (g >> 56) else h1;
    h2 & !g
  }

  /** strhash64 over the bytes of `s`. */
  function StrHash(s: seq<byte>): bv64 {
    if |s| == 0 then 0 else HashStep(StrHash(s[..|s| - 1]), s[|s| - 1])
  }

  /** The hash of the empty key is 0 and every hash is below 2^60. */
  lemma {:induction false} StrHashBound(s: seq<byte>)
    ensures |s| == 0 ==> StrHash(s) == 0
    ensures (StrHash(s) as nat) < TwoTo60
  {
    var h := StrHash(s);
    assert h & TopNibble == 0;
    assert h < 0x1000_0000_0000_0000;
  }

  /** strhash64 as the C code computes it: an accumulator loop over the bytes. */
  method StrHash64(key: seq<byte>) returns (h: bv64)
    ensures h == StrHash(key)
  {
    h := 0;
    var i := 0;
    while i < |key|
      invariant 0 <= i <= |key|
      invariant h == StrHash(key[..i])
    {
      assert key[..i + 1][..i] == key[..i];
      h := HashStep(h, key[i]);
      i := i + 1;
    }
    assert key[..|key|] == key;
  }

  /** The bucket a key hashes to. */
  function BucketOf(key: seq<byte>, numBuckets: nat): (b: nat)
    requires numBuckets > 0
    ensures b < numBuckets
  {
    (StrHash(key) as nat) % numBuckets
  }

  datatype Node<D> = Node(key: seq<byte>, data: D)

  /** Whether a node answers a query for `key` (the strncmp test of find_bucket_with_key). */
  predicate Matches<D>(key: seq<byte>, node: Node<D>) {
    StrnEq(key, node.key, |key|)
  }

  /** The position of the first node in `chain` that matches `key`. */
  function FirstMatch<D>(chain: seq<Node<D>>, key: seq<byte>): (r: Option<nat>)
    ensures r.Some? ==> r.value < |chain| && Matches(key, chain[r.value])
    ensures r.Some? ==> forall j :: 0 <= j < r.value ==> !Matches(key, chain[j])
    ensures r.None? ==> forall j :: 0 <= j < |chain| ==> !Matches(key, chain[j])
  {
    if |chain| == 0 then None
    else if Matches(key, chain[0]) then Some(0)
    else match FirstMatch(chain[1..], key)
      case None => None
      case Some(i) => Some(i + 1)
  }

  /** find_bucket_with_key: a walk down the chain that stops at the first match. */
  method FindBucketWithKey<D>(chain: seq<Node<D>>, key: seq<byte>) returns (r: Option<nat>)
    ensures r == FirstMatch(chain, key)
  {
    var i := 0;
    while i < |chain|
      invariant 0 <= i <= |chain|
      invariant forall j :: 0 <= j < i ==> !Matches(key, chain[j])
    {
      if StrnEq(key, chain[i].key, |key|) {
        FirstMatchIsFirst(chain, key, i);
        return Some(i);
      }
      i := i + 1;
    }
    FirstMatchIsFirst(chain, key, |chain|);
    return None;
  }

  /** FirstMatch is determined by where the first matching node sits. */
  lemma {:induction false} FirstMatchIsFirst<D>(chain: seq<Node<D>>, key: seq<byte>, i: nat)
    requires i <= |chain|
    requires forall j :: 0 <= j < i ==> !Matches(key, chain[j])
    requires i < |chain| ==> Matches(key, chain[i])
    ensures FirstMatch(chain, key) == if i < |chain| then Some(i) else None
  {
    var r := FirstMatch(chain, key);
    if r.Some? {
      assert r.value >= i;
    }
  }

  /** The chain after hash_set: overwrite the first match or prepend a new node. */
  function ChainSet<D>(chain: seq<Node<D>>, key: seq<byte>, data: D): seq<Node<D>> {
    match FirstMatch(chain, key)
    case Some(i) => chain[i := chain[i].(data := data)]
    case None => [Node(Strndup(key, |key|), data)] + chain
  }

  /** What hash_get answers for `key` on a chain. */
  function ChainGet<D>(chain: seq<Node<D>>, key: seq<byte>): Option<D> {
    match FirstMatch(chain, key)
    case Some(i) => Some(chain[i].data)
    case None => None
  }

  /**
    hash_set on a key some node matches overwrites that node's data and
    adds no node; on a new key it prepends exactly one node holding a copy
    of the key and leaves the old nodes as they were.
  */
  lemma {:induction false} ChainSetShape<D>(chain: seq<Node<D>>, key: seq<byte>, data: D)
    ensures FirstMatch(chain, key).Some? ==>
      var i := FirstMatch(chain, key).value;
      && |ChainSet(chain, key, data)| == |chain|
      && ChainSet(chain, key, data)[i] == Node(chain[i].key, data)
      && forall j :: 0 <= j < |chain| && j != i ==> ChainSet(chain, key, data)[j] == chain[j]
    ensures FirstMatch(chain, key).None? ==>
      && ChainSet(chain, key, data) == [Node(Strndup(key, |key|), data)] + chain
      && ChainSet(chain, key, data)[1..] == chain
  {
  }

  /** After setting `key` to `data`, getting `key` answers `data`. */
  lemma {:induction false} ChainSetThenGet<D>(chain: seq<Node<D>>, key: seq<byte>, data: D)
    ensures ChainGet(ChainSet(chain, key, data), key) == Some(data)
  {
    var c := ChainSet(chain, key, data);
    match FirstMatch(chain, key)
    case Some(i) =>
      FirstMatchIsFirst(c, key, i);
    case None =>
      StrnEqDup(key);
      FirstMatchIsFirst(c, key, 0);
  }

  /**
    Setting one key leaves the answer for another key alone unless the two
    queries land on the same node: an overwrite of a node the other key
    does not match first, or a prepended node the other key does not match.
  */
  lemma {:induction false} ChainSetOtherKey<D>(chain: seq<Node<D>>, key: seq<byte>, data: D, other: seq<byte>)
    requires FirstMatch(chain, key).Some? ==> FirstMatch(chain, other) != FirstMatch(chain, key)
    requires FirstMatch(chain, key).None? ==> !StrnEq(other, Strndup(key, |key|), |other|)
    ensures ChainGet(ChainSet(chain, key, data), other) == ChainGet(chain, other)
  {
    var c := ChainSet(chain, key, data);
    var o := FirstMatch(chain, other);
    if FirstMatch(chain, key).Some? {
      FirstMatchIsFirst(c, other, if o.Some? then o.value else |c|);
    } else {
      assert c[1..] == chain;
      FirstMatchIsFirst(c, other, if o.Some? then o.value + 1 else |c|);
    }
  }

  /**
    The prefix behaviour of the match: a query matches a node exactly when
    it is a prefix of the stored key, so a shorter query finds a longer key.
  */
  lemma {:induction false} PrefixQueryMatches<D>(query: seq<byte>, node: Node<D>)
    requires NoNul(query)
    ensures Matches(query, node) <==> query <= node.key
  {
    StrnEqIsPrefix(query, node.key);
  }

  /** The intern table (hash_s): a fixed number of chains. */
  class HashTable<D> {
    var buckets: seq<seq<Node<D>>>
    const numBuckets: nat

    ghost predicate Valid()
      reads this
    {
      numBuckets > 0 && |buckets| == numBuckets
    }

    /** make_hash: `numBuckets` empty chains. */
    constructor (numBuckets: nat)
      requires numBuckets > 0
      ensures Valid() && this.numBuckets == numBuckets
      ensures forall b :: 0 <= b < |buckets| ==> buckets[b] == []
    {
      this.numBuckets := numBuckets;
      buckets := seq(numBuckets, _ => []);
    }

    /** hash_set. */
    method Set(key: seq<byte>, data: D)
      requires Valid()
      modifies this
      ensures Valid()
      ensures buckets == old(buckets)[BucketOf(key, numBuckets) :=
                          ChainSet(old(buckets)[BucketOf(key, numBuckets)], key, data)]
    {
      var code := StrHash64(key);
      var b := (code as nat) % numBuckets;
      var chain := buckets[b];
      var found := FindBucketWithKey(chain, key);
      if found.Some? {
        buckets := buckets[b := chain[found.value := chain[found.value].(data := data)]];
        return;
      }
      buckets := buckets[b := [Node(Strndup(key, |key|), data)] + chain];
    }

    /** hash_get; `None` stands for the NULL the C code returns. */
    method Get(key: seq<byte>) returns (r: Option<D>)
      requires Valid()
      ensures r == ChainGet(buckets[BucketOf(key, numBuckets)], key)
    {
      var code := StrHash64(key);
      var b := (code as nat) % numBuckets;
      var found := FindBucketWithKey(buckets[b], key);
      if found.Some? {
        return Some(buckets[b][found.value].data);
      }
      return None;
    }

    /** What `Get` answers in the current state. */
    function Lookup(key: seq<byte>): Option<D>
      reads this
      requires Valid()
    {
      ChainGet(buckets[BucketOf(key, numBuckets)], key)
    }
  }

  /** On the table: after `Set(key, data)`, `Get(key)` answers `data`, and the bucket count is unchanged. */
  method SetThenGet<D>(t: HashTable<D>, key: seq<byte>, data: D) returns (r: Option<D>)
    requires t.Valid()
    modifies t
    ensures t.Valid()
    ensures r == Some(data)
  {
    t.Set(key, data);
    ChainSetThenGet(old(t.buckets)[BucketOf(key, t.numBuckets)], key, data);
    r := t.Get(key);
  }
}
