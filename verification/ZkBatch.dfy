/**
 The zk batch format: one 64-byte record per handle, the hash of its label
 followed by the hash of its tree entry. The hash functions are parameters.
 Commitment rows keep their batch, so a chain of commitments can be replayed
 from the stored bytes alone.
 */
module ZkBatch {
  import opened Tables

  const HASH_LEN := 32
  const RECORD_LEN := 64

  type Digest = d: seq<Byte> | |d| == HASH_LEN witness seq(HASH_LEN, i => 0)

  /** labelHash: hash of a sub-label. entryHash: hash of the serialized (name, script pubkey) tree entry. */
  datatype Hasher = Hasher(labelHash: Name -> Digest, entryHash: (Name, Spk) -> Digest)

  datatype Entry = Entry(name: Name, spk: Spk)

  datatype Record = Record(handle: Digest, value: Digest)

  function RecordOf(h: Hasher, e: Entry): Record {
    Record(h.labelHash(e.name), h.entryHash(e.name, e.spk))
  }

  function Records(h: Hasher, entries: seq<Entry>): seq<Record> {
    seq(|entries|, i requires 0 <= i < |entries| => RecordOf(h, entries[i]))
  }

  function Encode(records: seq<Record>): seq<Byte> {
    if records == [] then [] else records[0].handle + records[0].value + Encode(records[1..])
  }

  /** What a batch reader sees: consecutive 64-byte records. */
  function Parse(bytes: seq<Byte>): seq<Record> {
    if |bytes| < RECORD_LEN then []
    else [Record(bytes[..HASH_LEN], bytes[HASH_LEN..RECORD_LEN])] + Parse(bytes[RECORD_LEN..])
  }

  lemma {:induction false} ParseEncode(records: seq<Record>)
    ensures Parse(Encode(records)) == records
    ensures |Encode(records)| == RECORD_LEN * |records|
  {
    if records != [] {
      var bytes := Encode(records);
      ParseEncode(records[1..]);
      assert bytes[..HASH_LEN] == records[0].handle;
      assert bytes[HASH_LEN..RECORD_LEN] == records[0].value;
      assert bytes[RECORD_LEN..] == Encode(records[1..]);
    }
  }

  lemma {:induction false} EncodeParse(bytes: seq<Byte>)
    requires |bytes| % RECORD_LEN == 0
    ensures Encode(Parse(bytes)) == bytes
  {
    if bytes != [] {
      var rest := bytes[RECORD_LEN..];
      EncodeParse(rest);
      var parsed := Parse(bytes);
      assert parsed[1..] == Parse(rest);
      assert bytes == bytes[..HASH_LEN] + bytes[HASH_LEN..RECORD_LEN] + rest;
    }
  }

  lemma {:induction false} EncodeAppend(records: seq<Record>, r: Record)
    ensures Encode(records + [r]) == Encode(records) + (r.handle + r.value)
  {
    if records == [] {
      assert Encode([r]) == r.handle + r.value + Encode([]);
    } else {
      assert (records + [r])[1..] == records[1..] + [r];
      EncodeAppend(records[1..], r);
    }
  }

  /** The bytes stored with a commitment and handed to the prover. */
  function ZkInput(h: Hasher, entries: seq<Entry>): seq<Byte> {
    Encode(Records(h, entries))
  }

  method ToZkInput(h: Hasher, entries: seq<Entry>) returns (bytes: seq<Byte>)
    ensures bytes == ZkInput(h, entries)
    ensures |bytes| == RECORD_LEN * |entries| && Parse(bytes) == Records(h, entries)
    ensures forall i :: 0 <= i < |entries| ==>
      && bytes[RECORD_LEN * i..RECORD_LEN * i + HASH_LEN] == h.labelHash(entries[i].name)
      && bytes[RECORD_LEN * i + HASH_LEN..RECORD_LEN * (i + 1)] == h.entryHash(entries[i].name, entries[i].spk)
  {
    bytes := [];
    for i := 0 to |entries|
      invariant bytes == Encode(Records(h, entries)[..i])
    {
      var subspaceHash := h.labelHash(entries[i].name);
      bytes := bytes + subspaceHash;
      var valueHash := h.entryHash(entries[i].name, entries[i].spk);
      bytes := bytes + valueHash;
      EncodeAppend(Records(h, entries)[..i], RecordOf(h, entries[i]));
      assert Records(h, entries)[..i + 1] == Records(h, entries)[..i] + [RecordOf(h, entries[i])];
    }
    assert Records(h, entries)[..|entries|] == Records(h, entries);
    ParseEncode(Records(h, entries));
    forall i | 0 <= i < |entries| ensures
      && bytes[RECORD_LEN * i..RECORD_LEN * i + HASH_LEN] == h.labelHash(entries[i].name)
      && bytes[RECORD_LEN * i + HASH_LEN..RECORD_LEN * (i + 1)] == h.entryHash(entries[i].name, entries[i].spk) {
      EncodeAt(Records(h, entries), i);
    }
  }

  /** Insert the entries into a tree, in order. */
  function InsertAll(t: Tree, entries: seq<Entry>): Tree {
    if entries == [] then t
    else
      var last := entries[|entries| - 1];
      InsertAll(t, entries[..|entries| - 1])[last.name := last.spk]
  }

  /** Insert hashed records into a hashed tree, in order. */
  function InsertRecords(leaves: map<Digest, Digest>, records: seq<Record>): map<Digest, Digest> {
    if records == [] then leaves
    else
      var last := records[|records| - 1];
      InsertRecords(leaves, records[..|records| - 1])[last.handle := last.value]
  }

  /** Insert the decoded batches one after the other into the empty tree. */
  function Replay(batches: seq<seq<Byte>>): map<Digest, Digest> {
    if batches == [] then map[]
    else InsertRecords(Replay(batches[..|batches| - 1]), Parse(batches[|batches| - 1]))
  }

  /** No two of these labels share a hash. */
  ghost predicate NoCollision(h: Hasher, names: set<Name>) {
    forall a, b :: a in names && b in names && h.labelHash(a) == h.labelHash(b) ==> a == b
  }

  /** `leaves` is the hashed form of `tree`: exactly its labels, each with the hash of its entry. */
  ghost predicate Hashes(h: Hasher, leaves: map<Digest, Digest>, tree: Tree) {
    && leaves.Keys == (set n | n in tree :: h.labelHash(n))
    && forall n :: n in tree ==> leaves[h.labelHash(n)] == h.entryHash(n, tree[n])
  }

  lemma {:induction false} InsertHashes(h: Hasher, leaves: map<Digest, Digest>, tree: Tree, entries: seq<Entry>)
    requires Hashes(h, leaves, tree)
    requires NoCollision(h, InsertAll(tree, entries).Keys)
    ensures Hashes(h, InsertRecords(leaves, Records(h, entries)), InsertAll(tree, entries))
  {
    if entries != [] {
      var n := |entries| - 1;
      var rs := Records(h, entries);
      var last := entries[n];
      assert rs[..n] == Records(h, entries[..n]);
      var t0, t1 := InsertAll(tree, entries[..n]), InsertAll(tree, entries);
      assert t0.Keys <= t1.Keys;
      InsertHashes(h, leaves, tree, entries[..n]);
      var l0, l1 := InsertRecords(leaves, rs[..n]), InsertRecords(leaves, rs);
      assert l1 == l0[h.labelHash(last.name) := h.entryHash(last.name, last.spk)];
      assert t1 == t0[last.name := last.spk];
      assert last.name in t1;
      forall m | m in t1 ensures h.labelHash(m) in l1 && l1[h.labelHash(m)] == h.entryHash(m, t1[m]) {
        if m != last.name {
          assert m in t0;
          assert h.labelHash(m) != h.labelHash(last.name);
        }
      }
    }
  }

  // The guest program

  /** The hashed form of a tree none of whose labels collide. */
  ghost function Hashed(h: Hasher, tree: Tree): map<Digest, Digest>
    requires NoCollision(h, tree.Keys)
  {
    map n | n in tree :: h.labelHash(n) := h.entryHash(n, tree[n])
  }

  /** The guest, run on the hashed form of a tree and a batch: no record may be there already, and all of them inserted give the second tree. */
  ghost predicate Accepts(h: Hasher, leaves: map<Digest, Digest>, bytes: seq<Byte>, to: Tree) {
    && |bytes| % RECORD_LEN == 0
    && (forall r :: r in Parse(bytes) ==> r.handle !in leaves)
    && Hashes(h, InsertRecords(leaves, Parse(bytes)), to)
  }

  /** The guest takes the first tree, by a proof against it, to the second one. */
  ghost predicate GuestGives(h: Hasher, from: Tree, bytes: seq<Byte>, to: Tree) {
    exists leaves :: Hashes(h, leaves, from) && Accepts(h, leaves, bytes, to)
  }

  lemma HashedIs(h: Hasher, tree: Tree)
    requires NoCollision(h, tree.Keys)
    ensures Hashes(h, Hashed(h, tree), tree)
  {
    var leaves := Hashed(h, tree);
    assert leaves.Keys == set n | n in tree :: h.labelHash(n);
    forall n | n in tree ensures leaves[h.labelHash(n)] == h.entryHash(n, tree[n]) {
      assert n in tree.Keys;
    }
  }

  ghost predicate Fresh(entries: seq<Entry>, tree: Tree) {
    forall i :: 0 <= i < |entries| ==> entries[i].name !in tree
  }

  lemma {:induction false} InsertKeys(tree: Tree, entries: seq<Entry>)
    ensures InsertAll(tree, entries).Keys == tree.Keys + set i | 0 <= i < |entries| :: entries[i].name
  {
    if entries != [] {
      InsertKeys(tree, entries[..|entries| - 1]);
    }
  }

  /** The bytes of a batch of new labels take any hashed form of the tree to that of the tree with the batch inserted. */
  lemma GuestAccepts(h: Hasher, leaves: map<Digest, Digest>, tree: Tree, entries: seq<Entry>)
    requires Hashes(h, leaves, tree) && Fresh(entries, tree)
    requires NoCollision(h, InsertAll(tree, entries).Keys)
    ensures Accepts(h, leaves, ZkInput(h, entries), InsertAll(tree, entries))
  {
    ParseEncode(Records(h, entries));
    InsertHashes(h, leaves, tree, entries);
    NewHandles(h, leaves, tree, entries);
  }

  lemma NewHandles(h: Hasher, leaves: map<Digest, Digest>, tree: Tree, entries: seq<Entry>)
    requires Hashes(h, leaves, tree) && Fresh(entries, tree)
    requires NoCollision(h, InsertAll(tree, entries).Keys)
    ensures forall r :: r in Records(h, entries) ==> r.handle !in leaves
  {
    var records := Records(h, entries);
    InsertKeys(tree, entries);
    forall r | r in records ensures r.handle !in leaves {
      var i :| 0 <= i < |records| && records[i] == r;
      assert entries[i].name in InsertAll(tree, entries).Keys;
      assert forall n :: n in tree ==> n in InsertAll(tree, entries).Keys && h.labelHash(n) != r.handle;
    }
  }

  /** On the bytes of a batch the guest accepts exactly if every label is new. */
  lemma GuestAcceptsIff(h: Hasher, tree: Tree, entries: seq<Entry>)
    requires NoCollision(h, InsertAll(tree, entries).Keys)
    ensures GuestGives(h, tree, ZkInput(h, entries), InsertAll(tree, entries)) <==> Fresh(entries, tree)
  {
    InsertKeys(tree, entries);
    if Fresh(entries, tree) {
      HashedIs(h, tree);
      GuestAccepts(h, Hashed(h, tree), tree, entries);
    } else {
      var i :| 0 <= i < |entries| && entries[i].name in tree;
      ParseEncode(Records(h, entries));
      assert Records(h, entries)[i] in Records(h, entries);
    }
  }

  lemma {:induction false} EncodeAt(records: seq<Record>, i: nat)
    requires i < |records|
    ensures |Encode(records)| == RECORD_LEN * |records|
    ensures Encode(records)[RECORD_LEN * i..RECORD_LEN * i + HASH_LEN] == records[i].handle
    ensures Encode(records)[RECORD_LEN * i + HASH_LEN..RECORD_LEN * (i + 1)] == records[i].value
  {
    ParseEncode(records);
    if i > 0 {
      var rest := Encode(records[1..]);
      EncodeAt(records[1..], i - 1);
      var bytes := Encode(records);
      assert bytes[RECORD_LEN..] == rest;
      assert bytes[RECORD_LEN * i..RECORD_LEN * i + HASH_LEN] == rest[RECORD_LEN * (i - 1)..RECORD_LEN * (i - 1) + HASH_LEN];
      assert bytes[RECORD_LEN * i + HASH_LEN..RECORD_LEN * (i + 1)] == rest[RECORD_LEN * (i - 1) + HASH_LEN..RECORD_LEN * i];
    }
  }
}
