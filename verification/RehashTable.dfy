/** The chained hash table of buckets, each with its linked list of entries, as the program builds it. */
module RehashTable {
  import opened CStrings
  import opened RehashSpec

  class HashEntry {
    var next: HashEntry?
    const filename: string
    var oldId: nat
    var needSymlink: bool
    var digest: Digest
    ghost const owner: HashBucket

    constructor (filename: string, ghost owner: HashBucket)
      ensures next == null && this.owner == owner
      ensures Is(Entry(filename, NO_LINK, false, NIL_DIGEST))
    {
      next, this.filename, oldId, needSymlink, digest := null, filename, NO_LINK, false, NIL_DIGEST;
      this.owner := owner;
    }

    ghost predicate Is(e: Entry)
      reads this
    {
      filename == e.filename && oldId == e.oldId && needSymlink == e.needed && digest == e.digest
    }
  }

  class HashBucket {
    var next: HashBucket?
    var firstEntry: HashEntry?
    var lastEntry: HashEntry?
    const key: Key
    var numNeeded: nat
    ghost const pos: nat               // its place in the chain, counted from the tail
    ghost var entries: seq<HashEntry>  // the list from firstEntry
    ghost var vals: seq<Entry>         // and what it holds
    ghost var nodes: set<HashEntry>    // every entry allocated for this bucket

    constructor (key: Key, next: HashBucket?, ghost pos: nat)
      ensures this.key == key && this.next == next && this.pos == pos
      ensures nodes == {} && Valid() && Val() == EMPTY_BUCKET
    {
      this.next, this.key, this.pos := next, key, pos;
      firstEntry, lastEntry, numNeeded := null, null, 0;
      entries, vals, nodes := [], [], {};
    }

    /** The list from firstEntry is exactly entries, lastEntry is its tail, and no two share a filename. */
    ghost predicate Valid()
      reads this, nodes
    {
      && firstEntry == (if entries == [] then null else entries[0])
      && lastEntry == (if entries == [] then null else entries[|entries| - 1])
      && |vals| == |entries| && DistinctNames(vals)
      && (forall e {:trigger e.owner} :: e in nodes ==> e.owner == this)
      && (forall i {:trigger EntryOk(i)} :: 0 <= i < |entries| ==> EntryOk(i))
    }

    /** Entry i holds vals[i] and leads to entry i + 1, the last one to null. */
    ghost predicate EntryOk(i: nat)
      requires i < |entries| == |vals|
      reads this, nodes
    {
      && entries[i] in nodes
      && entries[i].Is(vals[i])
      && entries[i].next == if i + 1 < |entries| then entries[i + 1] else null
    }

    ghost function Val(): Bucket
      reads this
    {
      Bucket(vals, numNeeded)
    }

    lemma EntriesDiffer(i: nat, j: nat)
      requires Valid() && i < |entries| && j < |entries| && i != j
      ensures entries[i] != entries[j]
    {
      assert EntryOk(i) && EntryOk(j);
    }

    /** The scan that opens add_entry: a duplicate digest, the entry with this filename, or neither. */
    method Search(filename: string, digest: Option<Digest>) returns (dup: bool, found: HashEntry?)
      requires Valid()
      ensures dup <==> digest.Some? && HasDigest(vals, digest.value)
      ensures !dup ==> found == if Find(vals, filename) < 0 then null else entries[Find(vals, filename)]
    {
      dup, found := false, null;
      var ep := firstEntry;
      ghost var i, k := 0, -1;
      while ep != null
        invariant i <= |entries|
        invariant ep == if i < |entries| then entries[i] else null
        invariant digest.Some? ==> forall j :: 0 <= j < i ==> vals[j].digest != digest.value
        invariant -1 <= k < i && found == if k < 0 then null else entries[k]
        invariant k < 0 ==> forall j :: 0 <= j < i ==> vals[j].filename != filename
        invariant k >= 0 ==> vals[k].filename == filename
        decreases |entries| - i
      {
        assert EntryOk(i);
        if digest.Some? && digest.value == ep.digest {
          dup := true;
          return;
        }
        if filename == ep.filename {
          found, k := ep, i;
          if digest.None? {
            break;
          }
        }
        ep, i := ep.next, i + 1;
      }
      if k >= 0 {
        FindIsUnique(vals, k);
      }
    }

    /** An entry for a filename the bucket does not hold yet goes to the end of the list. */
    method Create(filename: string) returns (ep: HashEntry)
      requires Valid() && Find(vals, filename) < 0
      modifies this`firstEntry, this`lastEntry, this`entries, this`vals, this`nodes, nodes`next
      ensures Valid() && fresh(ep) && entries == old(entries) + [ep] && nodes == old(nodes) + {ep}
      ensures vals == old(vals) + [Entry(filename, NO_LINK, false, NIL_DIGEST)]
    {
      ghost var n := |entries|;
      assert n > 0 ==> EntryOk(n - 1);
      forall i | 0 <= i < n - 1 ensures entries[i] != entries[n - 1] {
        EntriesDiffer(i, n - 1);
      }
      ep := new HashEntry(filename, this);
      if lastEntry != null {
        lastEntry.next := ep;
      }
      if firstEntry == null {
        firstEntry := ep;
      }
      lastEntry := ep;
      entries, vals, nodes := entries + [ep], vals + [Entry(filename, NO_LINK, false, NIL_DIGEST)], nodes + {ep};
      forall i | 0 <= i < |entries| ensures EntryOk(i) {
        assert i < n ==> old(EntryOk(i));
      }
    }

    /** The tail of add_entry: the least link id wins, and the first claim fixes the digest. */
    method Update(ep: HashEntry, ghost k: nat, digest: Option<Digest>, need: bool, oldId: nat)
      requires Valid() && k < |entries| && entries[k] == ep && (need ==> digest.Some?)
      modifies this`numNeeded, this`vals, ep
      ensures Valid() && vals == old(vals)[k := Merge(old(vals)[k], digest, need, oldId)]
      ensures numNeeded == if need && !old(vals)[k].needed then (old(numNeeded) + 1) % 0x1_0000 else old(numNeeded)
    {
      assert EntryOk(k);
      forall i | 0 <= i < |entries| && i != k ensures entries[i] != ep {
        EntriesDiffer(i, k);
      }
      if oldId < ep.oldId {
        ep.oldId := oldId;
      }
      if need && !ep.needSymlink {
        ep.needSymlink := true;
        numNeeded := (numNeeded + 1) % 0x1_0000;
        ep.digest := digest.value;
      }
      vals := vals[k := Merge(vals[k], digest, need, oldId)];
      forall i | 0 <= i < |entries| ensures EntryOk(i) {
        assert old(EntryOk(i));
      }
    }

    /** add_entry once its bucket is found. */
    method Add(filename: string, digest: Option<Digest>, need: bool, oldId: nat) returns (errs: nat)
      requires Valid() && (need ==> digest.Some?)
      modifies this`firstEntry, this`lastEntry, this`entries, this`vals, this`nodes, this`numNeeded, nodes
      ensures Valid() && fresh(nodes - old(nodes))
      ensures (Val(), errs) == AddEntry(old(Val()), filename, digest, need, oldId)
    {
      ghost var b := Val();
      ghost var k := Find(vals, filename);
      var dup, ep := Search(filename, digest);
      if dup || (ep == null && numNeeded >= MAX_COLLISIONS) {
        assert !Accepts(b, filename, digest);
        return 1;
      }
      assert Accepts(b, filename, digest);
      if ep == null {
        k := |vals|;
        ep := Create(filename);
      }
      assert EntryOk(k);
      AddEntryParts(b, filename, digest, need, oldId, vals, k);
      Update(ep, k, digest, need, oldId);
      return 0;
    }
  }

  /** An accepted call updates one position of the list, after appending a fresh entry if there was none. */
  lemma AddEntryParts(b: Bucket, filename: string, digest: Option<Digest>, need: bool, oldId: nat,
                      cur: seq<Entry>, k: nat)
    requires (need ==> digest.Some?) && Accepts(b, filename, digest)
    requires var j := Find(b.entries, filename);
             if j < 0 then k == |b.entries| && cur == b.entries + [Entry(filename, NO_LINK, false, NIL_DIGEST)]
             else k == j && cur == b.entries
    ensures var n := if need && !cur[k].needed then (b.numNeeded + 1) % 0x1_0000 else b.numNeeded;
            AddEntry(b, filename, digest, need, oldId) ==
            (Bucket(cur[k := Merge(cur[k], digest, need, oldId)], n), 0)
  {
    var e := Merge(cur[k], digest, need, oldId);
    if Find(b.entries, filename) < 0 {
      assert cur[k := e] == b.entries + [e];
    }
  }

  const NUM_SLOTS := 257

  /** (type + hash) is an unsigned 32-bit sum before it is reduced to a slot. */
  function Slot(key: Key): (s: nat)
    ensures s < NUM_SLOTS
  {
    ((key.kind + key.hash) % 0x1_0000_0000) % NUM_SLOTS
  }

  ghost predicate Clash(b: HashBucket, c: HashBucket) {
    b != c && (b.key == c.key || (Slot(b.key) == Slot(c.key) && b.pos == c.pos))
  }

  /** No key and no place in a chain is taken twice. */
  ghost predicate Unique(buckets: set<HashBucket>) {
    forall b, c {:trigger Clash(b, c)} :: b in buckets && c in buckets ==> !Clash(b, c)
  }

  lemma UniqueGrows(buckets: set<HashBucket>, bp: HashBucket)
    requires Unique(buckets)
    requires forall b :: b in buckets ==> b.key != bp.key && (Slot(b.key) == Slot(bp.key) ==> b.pos != bp.pos)
    ensures Unique(buckets + {bp})
  {
  }

  /** Valid buckets, all of whose entries are among nodes. */
  ghost predicate AllValid(buckets: set<HashBucket>, nodes: set<HashEntry>)
    reads buckets, nodes
  {
    forall b {:trigger BucketOk(b, nodes)} :: b in buckets ==> BucketOk(b, nodes)
  }

  ghost predicate BucketOk(b: HashBucket, nodes: set<HashEntry>)
    reads b, nodes
  {
    b.nodes <= nodes && b.Valid()
  }

  /** The buckets are exactly those of the map t, each with what t says. */
  ghost predicate Represent(buckets: set<HashBucket>, t: map<Key, Bucket>)
    reads buckets
  {
    && (forall b {:trigger Agrees(b, t)} :: b in buckets ==> Agrees(b, t))
    && (forall key {:trigger HasKey(buckets, key)} :: key in t <==> HasKey(buckets, key))
  }

  ghost predicate Agrees(b: HashBucket, t: map<Key, Bucket>)
    reads b
  {
    b.key in t && t[b.key] == b.Val()
  }

  ghost predicate HasKey(buckets: set<HashBucket>, key: Key) {
    exists b :: b in buckets && b.key == key
  }

  /** Owners keep the entries of different buckets apart, so one bucket can be set aside. */
  lemma SetAside(buckets: set<HashBucket>, nodes: set<HashEntry>, bp: HashBucket)
    requires AllValid(buckets, nodes) && bp in buckets
    ensures AllValid(buckets - {bp}, nodes - bp.nodes) && bp.Valid() && bp.nodes <= nodes
  {
    assert BucketOk(bp, nodes);
    forall b | b in buckets - {bp} ensures BucketOk(b, nodes - bp.nodes) {
      assert BucketOk(b, nodes);
      assert forall e :: e in b.nodes ==> e.owner == b;
    }
  }

  lemma PutBack(buckets: set<HashBucket>, nodes: set<HashEntry>, bp: HashBucket, all: set<HashEntry>)
    requires AllValid(buckets - {bp}, nodes) && bp.Valid() && nodes + bp.nodes <= all
    ensures AllValid(buckets, all)
  {
    forall b | b in buckets ensures BucketOk(b, all) {
      assert b != bp ==> BucketOk(b, nodes);
    }
  }

  class HashTable {
    const slots: array<HashBucket?>
    ghost var buckets: set<HashBucket>
    ghost var nodes: set<HashEntry>    // every entry of every bucket
    ghost var len: seq<nat>            // how many buckets each chain holds

    /** Each chain runs through the buckets of its slot, one for each pos from len[s] - 1 down to 0. */
    ghost predicate Chained()
      reads this`buckets, this`len, slots, buckets`next
    {
      && slots.Length == NUM_SLOTS == |len|
      && (forall b {:trigger Followed(b)} :: b in buckets ==> Followed(b))
      && (forall s :: 0 <= s < NUM_SLOTS ==>
            if len[s] == 0 then slots[s] == null else Stands(slots[s], s, len[s] - 1))
    }

    ghost predicate Followed(b: HashBucket)
      requires |len| == NUM_SLOTS
      reads this`buckets, this`len, b`next
    {
      && b.pos < len[Slot(b.key)]
      && if b.pos == 0 then b.next == null else Stands(b.next, Slot(b.key), b.pos - 1)
    }

    ghost predicate Stands(b: HashBucket?, s: nat, pos: nat)
      reads this`buckets
    {
      b != null && b in buckets && Slot(b.key) == s && b.pos == pos
    }

    ghost predicate Valid()
      reads this, slots, buckets, nodes
    {
      Unique(buckets) && Chained() && AllValid(buckets, nodes)
    }

    constructor ()
      ensures Valid() && buckets == {} && fresh(slots)
    {
      slots := new HashBucket?[NUM_SLOTS](_ => null);
      new;
      buckets, nodes, len := {}, {}, seq(NUM_SLOTS, _ => 0);
    }

    method FindBucket(key: Key) returns (bp: HashBucket?)
      requires Unique(buckets) && Chained()
      ensures if bp == null then forall b :: b in buckets ==> b.key != key else bp in buckets && bp.key == key
    {
      var s := Slot(key);
      bp := slots[s];
      assert forall b :: b in buckets && b.key == key ==> Followed(b);
      while bp != null
        invariant bp != null ==> bp in buckets && Slot(bp.key) == s
        invariant forall b :: b in buckets && b.key == key ==> bp != null && b.pos <= bp.pos
        decreases if bp == null then 0 else bp.pos + 1
      {
        assert Followed(bp);
        assert forall b :: b in buckets && b.key == key ==> !Clash(b, bp);
        if bp.key == key {
          return;
        }
        bp := bp.next;
      }
    }

    /** A missing bucket goes to the front of its chain. */
    method PushFront(bp: HashBucket)
      requires Chained() && bp !in buckets
      requires bp.pos == len[Slot(bp.key)] && bp.next == slots[Slot(bp.key)]
      modifies this`buckets, this`len, slots
      ensures Chained() && buckets == old(buckets) + {bp}
    {
      var s := Slot(bp.key);
      slots[s] := bp;
      buckets, len := buckets + {bp}, len[s := len[s] + 1];
      forall b | b in buckets ensures Followed(b) {
        assert b != bp ==> old(Followed(b));
      }
    }

    method NewBucket(key: Key) returns (bp: HashBucket)
      requires Valid() && forall b :: b in buckets ==> b.key != key
      modifies this`buckets, this`len, slots
      ensures Valid() && fresh(bp) && bp.key == key && bp.Val() == EMPTY_BUCKET && bp.nodes == {}
      ensures buckets == old(buckets) + {bp}
    {
      var s := Slot(key);
      ghost var after := buckets;
      bp := new HashBucket(key, slots[s], len[s]);
      assert forall b :: b in buckets ==> Followed(b);
      UniqueGrows(buckets, bp);
      after := buckets + {bp};
      assert after - {bp} == buckets;
      PutBack(after, nodes, bp, nodes);
      PushFront(bp);
    }

    method AddTo(bp: HashBucket, filename: string, digest: Option<Digest>, need: bool, oldId: nat) returns (errs: nat)
      requires Valid() && bp in buckets && (need ==> digest.Some?)
      modifies this`nodes, bp, bp.nodes
      ensures Valid() && nodes == old(nodes) + bp.nodes && fresh(bp.nodes - old(bp.nodes))
      ensures (bp.Val(), errs) == RehashSpec.AddEntry(old(bp.Val()), filename, digest, need, oldId)
      ensures forall b :: b in buckets && b != bp ==> b.Val() == old(b.Val())
    {
      ghost var apart := nodes - bp.nodes;
      SetAside(buckets, nodes, bp);
      errs := bp.Add(filename, digest, need, oldId);
      ghost var all := nodes + bp.nodes;
      PutBack(buckets, apart, bp, all);
      nodes := all;
    }

    method AddAt(key: Key, filename: string, digest: Option<Digest>, need: bool, oldId: nat)
      returns (errs: nat, ghost bp: HashBucket)
      requires Valid() && (need ==> digest.Some?)
      modifies this`buckets, this`len, this`nodes, slots, buckets, nodes
      ensures Valid() && buckets == old(buckets) + {bp} && fresh(buckets - old(buckets))
      ensures bp.key == key && (bp in old(buckets) || forall b :: b in old(buckets) ==> b.key != key)
      ensures (bp.Val(), errs) == RehashSpec.AddEntry(if bp in old(buckets) then old(bp.Val()) else EMPTY_BUCKET,
                                                      filename, digest, need, oldId)
      ensures forall b :: b in old(buckets) && b != bp ==> b.Val() == old(b.Val())
    {
      var p := FindBucket(key);
      if p == null {
        p := NewBucket(key);
      } else {
        SetAside(buckets, nodes, p);
      }
      bp := p;
      errs := AddTo(p, filename, digest, need, oldId);
    }

    /** add_entry: the bucket of the key, made if need be, takes the record; no other bucket changes. */
    method AddEntry(key: Key, filename: string, digest: Option<Digest>, need: bool, oldId: nat,
                    ghost t: map<Key, Bucket>) returns (errs: nat)
      requires Valid() && Represent(buckets, t) && (need ==> digest.Some?)
      modifies this`buckets, this`len, this`nodes, slots, buckets, nodes
      ensures Valid() && fresh(buckets - old(buckets))
      ensures Represent(buckets, TableAdd(t, key, filename, digest, need, oldId).0)
      ensures errs == TableAdd(t, key, filename, digest, need, oldId).1
    {
      ghost var bp;
      errs, bp := AddAt(key, filename, digest, need, oldId);
      ghost var t' := TableAdd(t, key, filename, digest, need, oldId).0;
      assert key in t <==> HasKey(old(buckets), key);
      assert bp in old(buckets) ==> old(Agrees(bp, t));
      forall b | b in buckets ensures Agrees(b, t') {
        if b != bp {
          assert old(Agrees(b, t)) && !Clash(b, bp);
        }
      }
      forall k ensures k in t' <==> HasKey(buckets, k) {
        assert k in t <==> HasKey(old(buckets), k);
      }
    }
  }
}
