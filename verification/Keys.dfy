/** Key layout of document bodies and secondary index entries inside a storage prefix. */
module Keys {
  import opened Bytes
  import opened Words

  const REC_DOC: byte := 100    // 'd'
  const REC_INDEX: byte := 105  // 'i'

  function DocPrefix(prefix: bytes, collection: nat): bytes {
    prefix + [REC_DOC] + ToBE(4, collection)
  }

  function DocKey(prefix: bytes, collection: nat, id: bytes): bytes {
    DocPrefix(prefix, collection) + id
  }

  function DocIdFromDocKey(prefixLen: nat, key: bytes): bytes {
    if prefixLen + 5 <= |key| then key[prefixLen + 5..] else []
  }

  function IndexPrefix(prefix: bytes, collection: nat, index: nat): bytes {
    prefix + [REC_INDEX] + ToBE(4, collection) + ToBE(4, index)
  }

  function IndexKey(prefix: bytes, collection: nat, index: nat, fields: bytes, id: bytes): bytes {
    IndexPrefix(prefix, collection, index) + fields + id
  }

  lemma DocKeyRoundTrip(prefix: bytes, collection: nat, id: bytes)
    ensures DocIdFromDocKey(|prefix|, DocKey(prefix, collection, id)) == id
  {
    assert |DocPrefix(prefix, collection)| == |prefix| + 5;
  }

  /** A key under the document prefix is the key of exactly one document. */
  lemma DocKeyOf(prefix: bytes, collection: nat, key: bytes)
    requires DocPrefix(prefix, collection) <= key
    ensures key == DocKey(prefix, collection, DocIdFromDocKey(|prefix|, key))
  {
    assert |DocPrefix(prefix, collection)| == |prefix| + 5;
  }

  /** Distinct indexes of one storage prefix own disjoint key ranges. */
  lemma IndexPrefixesApart(prefix: bytes, c: nat, i: nat, c': nat, i': nat, key: bytes)
    requires c < U32 && i < U32 && c' < U32 && i' < U32
    requires IndexPrefix(prefix, c, i) <= key && IndexPrefix(prefix, c', i') <= key
    ensures c == c' && i == i'
  {
    var n := |prefix|;
    Spans();
    BERoundTrip(4, c);
    BERoundTrip(4, c');
    BERoundTrip(4, i);
    BERoundTrip(4, i');
    var p, q := IndexPrefix(prefix, c, i), IndexPrefix(prefix, c', i');
    assert p == key[..n + 9] == q;
    assert p[n + 1..n + 5] == ToBE(4, c) && q[n + 1..n + 5] == ToBE(4, c');
    assert p[n + 5..] == ToBE(4, i) && q[n + 5..] == ToBE(4, i');
  }

  /** Bodies and index entries never share a key. */
  lemma RecordsApart(prefix: bytes, c: nat, c': nat, i: nat, key: bytes)
    requires DocPrefix(prefix, c) <= key
    ensures !(IndexPrefix(prefix, c', i) <= key)
  {
    var n := |prefix|;
    assert DocPrefix(prefix, c)[n] == REC_DOC && IndexPrefix(prefix, c', i)[n] == REC_INDEX;
  }
}
