/** The chained hash table of aliases, variables and functions (`struct mrsh_hashtable`). */
module HashTables {
  import opened Chars

  const BUCKETS := 256
  const UINT_RANGE := 0x1_0000_0000

  /** A byte as a signed `char` is added to an unsigned sum. */
  function SignedByte(c: char): int {
    var b := c as int % 256;
    if b < 128 then b else b - 256
  }

  /** The hash of a string, modulo 2^32: each byte is added to 33 times the hash before it. */
  function Hash(str: string): (h: nat)
    ensures h < UINT_RANGE
  {
    if str == "" then 5381
    else (33 * Hash(str[..|str| - 1]) + SignedByte(str[|str| - 1])) % UINT_RANGE
  }

  function BucketOf(key: string): (b: nat)
    ensures b < BUCKETS
  {
    Hash(key) % BUCKETS
  }

  method Djb2(str: string) returns (hash: nat)
    ensures hash == Hash(str)
  {
    hash := 5381;
    for i := 0 to |str|
      invariant hash == Hash(str[..i])
    {
      assert str[..i + 1][..i] == str[..i];
      hash := ((hash * 32 + hash) + SignedByte(str[i])) % UINT_RANGE;
    }
    assert str[..|str|] == str;
  }

  /** Different keys may have equal hashes, so entries must be told apart by key. */
  lemma HashesCollide()
    ensures "Az" != "BY" && Hash("Az") == Hash("BY")
  {
    assert "Az"[..1] == "A" && "A"[..0] == "" && "BY"[..1] == "B" && "B"[..0] == "";
    assert Hash("A") == 33 * 5381 + 65 && Hash("B") == 33 * 5381 + 66;
  }

  /** A value is a pointer: None is NULL. */
  class Entry<V> {
    var next: Entry?<V>
    const hash: nat
    const key: string
    var value: Option<V>

    constructor (hash: nat, key: string)
      ensures this.hash == hash && this.key == key && next == null && value == None
    {
      this.hash, this.key := hash, key;
      next, value := null, None;
    }
  }

  /** The result of looking `key` up in the finite map that a table stands for. */
  function Lookup<V>(m: map<string, Option<V>>, key: string): Option<V> {
    if key in m then m[key] else None
  }

  /** The entry at position `i` of a chain; null at its end. */
  function Nth<V>(chain: seq<Entry<V>>, i: nat): (e: Entry?<V>)
    requires i <= |chain|
  {
    if i < |chain| then chain[i] else null
  }

  function Last<V>(chain: seq<Entry<V>>): Entry?<V> {
    if chain == [] then null else chain[|chain| - 1]
  }

  function Without<V>(chain: seq<Entry<V>>, i: nat): seq<Entry<V>>
    requires i < |chain|
  {
    chain[..i] + chain[i + 1..]
  }

  class Table<V> {
    const buckets: array<Entry?<V>>
    ghost var chains: seq<seq<Entry<V>>>  // the entries of each bucket, in the order of their links
    ghost var M: map<string, Option<V>>   // the finite map this table stands for
    ghost var Repr: set<object>

    /** The links of bucket `b` visit the entries of its chain, once each, and end. */
    ghost predicate Linked(b: nat)
      requires b < buckets.Length == |chains|
      reads this, buckets, chains[b]
    {
      var chain := chains[b];
      && buckets[b] == Nth(chain, 0)
      && forall i :: 0 <= i < |chain| ==> chain[i].next == Nth(chain, i + 1)
    }

    /** Every entry is in the bucket of its key, and no key is there twice. */
    ghost predicate Filed(b: nat)
      requires b < |chains|
      reads this, chains[b]
    {
      var chain := chains[b];
      && (forall i :: 0 <= i < |chain| ==> chain[i].hash == Hash(chain[i].key) && BucketOf(chain[i].key) == b)
      && (forall i, j :: 0 <= i < j < |chain| ==> chain[i].key != chain[j].key)
    }

    /** The entries of the chain are in the map, with their values. */
    ghost predicate Stores(b: nat)
      requires b < |chains|
      reads this, chains[b]
    {
      forall i :: 0 <= i < |chains[b]| ==> chains[b][i].key in M && M[chains[b][i].key] == chains[b][i].value
    }

    /** Every key of the map that belongs to bucket `b` has an entry in its chain. */
    ghost predicate Covers(b: nat)
      requires b < |chains|
      reads this, chains[b]
    {
      forall k :: k in M && BucketOf(k) == b ==> exists i :: 0 <= i < |chains[b]| && chains[b][i].key == k
    }

    ghost predicate Agrees(b: nat)
      requires b < |chains|
      reads this, chains[b]
    {
      Stores(b) && Covers(b)
    }

    ghost predicate Valid()
      reads this, Repr
      ensures Valid() ==> this in Repr && buckets in Repr
    {
      && this in Repr && buckets in Repr
      && buckets.Length == BUCKETS == |chains|
      && (forall b :: 0 <= b < BUCKETS ==> forall e <- chains[b] :: e in Repr)
      && (forall b :: 0 <= b < BUCKETS ==> Linked(b) && Filed(b) && Agrees(b))
    }

    constructor ()
      ensures Valid() && fresh(Repr) && M == map[]
    {
      buckets := new Entry?<V>[BUCKETS](_ => null);
      chains := seq(BUCKETS, _ => []);
      M := map[];
      new;
      Repr := {this, buckets};
    }

    /** Follows the links of a bucket up to the entry of `key`, or to the end. */
    method Walk(bucket: nat, key: string, hash: nat) returns (previous: Entry?<V>, entry: Entry?<V>, ghost i: nat)
      requires bucket < buckets.Length == |chains| && Linked(bucket)
      requires forall e <- chains[bucket] :: e.key == key ==> e.hash == hash
      ensures var chain := chains[bucket];
        && i <= |chain|
        && entry == Nth(chain, i)
        && previous == (if i > 0 then chain[i - 1] else null)
        && (forall j :: 0 <= j < i ==> chain[j].key != key)
        && (entry != null ==> entry.key == key)
    {
      ghost var chain := chains[bucket];
      entry := buckets[bucket];
      previous, i := null, 0;
      while entry != null
        invariant 0 <= i <= |chain|
        invariant entry == Nth(chain, i)
        invariant previous == if i > 0 then chain[i - 1] else null
        invariant forall j :: 0 <= j < i ==> chain[j].key != key
        decreases |chain| - i
      {
        if entry.hash == hash && entry.key == key {
          break;
        }
        assert chain[i].next == Nth(chain, i + 1) && chain[i] in chain;
        previous := entry;
        entry := entry.next;
        i := i + 1;
      }
    }

    /** The search that every operation starts with: the entry of `key` and the one before it. */
    method Find(key: string, hash: nat) returns (previous: Entry?<V>, entry: Entry?<V>, ghost i: nat)
      requires Valid() && hash == Hash(key)
      ensures var chain := chains[BucketOf(key)];
        && i <= |chain|
        && entry == Nth(chain, i)
        && previous == (if i > 0 then chain[i - 1] else null)
        && (entry != null ==> entry.key == key)
      ensures entry == null <==> key !in M
      ensures entry != null ==> M[key] == entry.value
    {
      ghost var b := BucketOf(key);
      assert Linked(b) && Filed(b) && Agrees(b) && Stores(b) && Covers(b);
      previous, entry, i := Walk(hash % BUCKETS, key, hash);
      ghost var chain := chains[b];
      if key in M {
        ghost var j :| 0 <= j < |chain| && chain[j].key == key;
        assert entry != null;
      }
    }

    method Get(key: string) returns (value: Option<V>)
      requires Valid()
      ensures value == Lookup(M, key)
    {
      var hash := Djb2(key);
      ghost var i: nat;
      var previous, entry;
      previous, entry, i := Find(key, hash);
      value := if entry == null then None else entry.value;
    }

    /** Links a new entry after the last one of its chain; its key is not in the map yet. */
    method AddEntry(previous: Entry?<V>, key: string, hash: nat) returns (entry: Entry<V>)
      requires Valid() && hash == Hash(key) && key !in M
      requires previous == Last(chains[BucketOf(key)])
      modifies Repr
      ensures Valid() && Repr == old(Repr) + {entry} && fresh(entry)
      ensures M == old(M)[key := None]
      ensures entry in chains[BucketOf(key)] && entry.key == key
    {
      var bucket := hash % BUCKETS;
      assert forall b :: 0 <= b < BUCKETS ==> Linked(b) && Filed(b) && Agrees(b);
      entry := new Entry(hash, key);
      if previous != null {
        previous.next := entry;
      } else {
        buckets[bucket] := entry;
      }
      chains := chains[bucket := chains[bucket] + [entry]];
      Repr := Repr + {entry};
      M := M[key := None];
      LinkedAfterAdd(bucket, entry);
      FiledAfterAdd(bucket, entry);
      AgreesAfterAdd(bucket, entry);
    }

    /** A new entry is at the end of its bucket: the last one links to it, or the bucket itself does. */
    twostate predicate Appended(bucket: nat, new entry: Entry<V>)
      requires old(Valid()) && Repr == old(Repr) + {entry} && bucket < BUCKETS == |chains|
      reads this, buckets, Repr
    {
      var previous := Last(old(chains[bucket]));
      && chains == old(chains)[bucket := old(chains[bucket]) + [entry]] && entry.next == null
      && (forall c :: 0 <= c < BUCKETS ==>
            buckets[c] == if c == bucket && previous == null then entry else old(buckets[c]))
      && (previous != null ==> previous.next == entry)
      && (forall e: Entry<V> <- old(Repr) :: e != previous ==> e.next == old(e.next))
    }

    twostate lemma LinkedAfterAdd(bucket: nat, new entry: Entry<V>)
      requires old(Valid()) && Repr == old(Repr) + {entry} && bucket < BUCKETS == |chains| && fresh(entry) && Appended(bucket, entry)
      ensures forall b :: 0 <= b < BUCKETS ==> Linked(b)
    {
      assert buckets.Length == BUCKETS;
      hide Valid, Linked, Appended;
      OwnLinkedAfterAdd(bucket, entry);
      forall b | 0 <= b < BUCKETS ensures Linked(b) {
        if b != bucket {
          OtherLinkedAfterAdd(bucket, entry, b);
        }
      }
    }

    twostate lemma OwnLinkedAfterAdd(bucket: nat, new entry: Entry<V>)
      requires old(Valid()) && Repr == old(Repr) + {entry} && bucket < BUCKETS == |chains| && fresh(entry) && Appended(bucket, entry)
      ensures Linked(bucket)
    {
      ghost var chain := old(chains[bucket]);
      assert old(Linked(bucket)) && old(Filed(bucket));
      assert chains[bucket] == chain + [entry];
      forall i | 0 <= i < |chains[bucket]| ensures chains[bucket][i].next == Nth(chains[bucket], i + 1) {
        if i < |chain| - 1 {
          assert chain[i].key != chain[|chain| - 1].key;
          assert chain[i] in chain && old(chain[i].next == Nth(chain, i + 1));
        }
      }
    }

    twostate lemma OtherLinkedAfterAdd(bucket: nat, new entry: Entry<V>, new b: nat)
      requires old(Valid()) && Repr == old(Repr) + {entry} && bucket < BUCKETS == |chains| && Appended(bucket, entry)
      requires b < BUCKETS && b != bucket
      ensures Linked(b)
    {
      ghost var previous, chain := Last(old(chains[bucket])), old(chains[b]);
      assert old(Linked(b)) && old(Filed(b)) && old(Filed(bucket));
      assert chains[b] == chain;
      if previous != null {
        ghost var before := old(chains[bucket]);
        assert before[|before| - 1] == previous && BucketOf(previous.key) == bucket;
      }
      forall i | 0 <= i < |chain| ensures chain[i].next == Nth(chain, i + 1) {
        assert BucketOf(chain[i].key) == b;
        assert chain[i] in chain && chain[i] != previous;
      }
    }

    twostate lemma FiledAfterAdd(bucket: nat, new entry: Entry<V>)
      requires old(Valid()) && bucket < BUCKETS == |chains|
      requires entry.hash == Hash(entry.key) && BucketOf(entry.key) == bucket && entry.key !in old(M)
      requires chains == old(chains)[bucket := old(chains[bucket]) + [entry]]
      ensures forall b :: 0 <= b < BUCKETS ==> Filed(b)
    {
      forall b | 0 <= b < BUCKETS ensures Filed(b) {
        assert old(Filed(b)) && old(Agrees(b));
        ghost var chain := old(chains[b]);
        assert b == bucket ==> chains[b] == chain + [entry];
      }
    }

    twostate lemma AgreesAfterAdd(bucket: nat, new entry: Entry<V>)
      requires old(Valid()) && bucket < BUCKETS == |chains|
      requires BucketOf(entry.key) == bucket && entry.key !in old(M) && entry.value == None
      requires chains == old(chains)[bucket := old(chains[bucket]) + [entry]]
      requires forall e: Entry<V> <- old(Repr) :: e.value == old(e.value)
      requires M == old(M)[entry.key := None]
      ensures forall b :: 0 <= b < BUCKETS ==> Agrees(b)
    {
      ghost var key := entry.key;
      forall b | 0 <= b < BUCKETS ensures Agrees(b) {
        assert old(Agrees(b));
        ghost var chain := old(chains[b]);
        forall i | 0 <= i < |chain| ensures chain[i].key in M && M[chain[i].key] == chain[i].value {
          assert chain[i] in chain && chain[i] in old(Repr) && chain[i].key in old(M);
        }
        assert if b == bucket then chains[b] == chain + [entry] else chains[b] == chain;
        forall k | k in M && BucketOf(k) == b ensures exists i :: 0 <= i < |chains[b]| && chains[b][i].key == k {
          if k != key {
            var i :| 0 <= i < |chain| && chain[i].key == k;
            assert chains[b][i].key == k;
          } else {
            assert chains[b][|chain|].key == k;
          }
        }
      }
    }

    /** Stores a value in an entry that is already linked. */
    method Replace(entry: Entry<V>, value: Option<V>) returns (oldValue: Option<V>)
      requires Valid() && entry in chains[BucketOf(entry.key)]
      modifies entry, this
      ensures Valid() && Repr == old(Repr)
      ensures entry.key in old(M) && oldValue == old(M)[entry.key]
      ensures M == old(M)[entry.key := value]
    {
      hide Linked, Filed, Stores, Covers, Agrees;
      StoredValue(entry);
      oldValue := entry.value;
      entry.value := value;
      M := M[entry.key := value];
      LinkedAfterReplace();
      AgreesAfterReplace(entry);
    }

    lemma StoredValue(entry: Entry<V>)
      requires Valid() && entry in chains[BucketOf(entry.key)]
      ensures entry in Repr && entry.key in M && M[entry.key] == entry.value
    {
      assert Filed(BucketOf(entry.key)) && Agrees(BucketOf(entry.key));
    }

    twostate lemma LinkedAfterReplace()
      requires old(Valid()) && chains == old(chains)
      requires forall c :: 0 <= c < BUCKETS ==> buckets[c] == old(buckets[c])
      requires forall e: Entry<V> <- old(Repr) :: e.next == old(e.next)
      ensures forall b :: 0 <= b < BUCKETS ==> Linked(b) && Filed(b)
    {
      forall b | 0 <= b < BUCKETS ensures Linked(b) && Filed(b) {
        assert old(Linked(b)) && old(Filed(b));
        assert forall e <- chains[b] :: e.next == old(e.next);
      }
    }

    twostate lemma AgreesAfterReplace(entry: Entry<V>)
      requires old(Valid()) && chains == old(chains) && entry in chains[BucketOf(entry.key)]
      requires M == old(M)[entry.key := entry.value]
      requires forall e: Entry<V> <- old(Repr) :: e != entry ==> e.value == old(e.value)
      ensures forall b :: 0 <= b < BUCKETS ==> Agrees(b)
    {
      forall b | 0 <= b < BUCKETS ensures Agrees(b) {
        ghost var chain := chains[b];
        assert old(Agrees(b)) && old(Filed(b));
        forall i | 0 <= i < |chain| ensures chain[i].key in M && M[chain[i].key] == chain[i].value {
          assert chain[i] in chain;
          if chain[i].key == entry.key {
            assert chain[i] == entry;
          }
        }
      }
    }

    method Set(key: string, value: Option<V>) returns (oldValue: Option<V>)
      requires Valid()
      modifies Repr
      ensures Valid() && fresh(Repr - old(Repr))
      ensures oldValue == Lookup(old(M), key)
      ensures M == old(M)[key := value]
    {
      var hash := Djb2(key);
      ghost var i: nat;
      var previous, entry;
      previous, entry, i := Find(key, hash);
      if entry == null {
        entry := AddEntry(previous, key, hash);
      }
      oldValue := Replace(entry, value);
    }

    /** Takes the entry at position `i` of its chain out of the links. */
    method Unlink(bucket: nat, previous: Entry?<V>, entry: Entry<V>, ghost i: nat)
      requires Valid() && bucket < BUCKETS && i < |chains[bucket]| && entry == chains[bucket][i]
      requires previous == if i > 0 then chains[bucket][i - 1] else null
      modifies Repr
      ensures Valid() && Repr == old(Repr)
      ensures M == old(M) - {entry.key}
      ensures chains == old(chains)[bucket := Without(old(chains[bucket]), i)]
    {
      if previous != null {
        previous.next := entry.next;
      } else {
        buckets[bucket] := entry.next;
      }
      chains := chains[bucket := Without(chains[bucket], i)];
      M := M - {entry.key};
      LinkedAfterUnlink(bucket, i);
      FiledAfterUnlink(bucket, i);
      StoresAfterUnlink(bucket, i);
      CoversAfterUnlink(bucket, i);
    }

    /** Only the link to the entry at position `i` changed: it now goes to the entry after. */
    twostate predicate Relinked(bucket: nat, new i: nat)
      requires old(Valid()) && Repr == old(Repr) && bucket < BUCKETS == |chains| && i < |old(chains[bucket])|
      reads this, buckets, Repr
    {
      var chain := old(chains[bucket]);
      && chains == old(chains)[bucket := Without(chain, i)]
      && (forall c :: 0 <= c < BUCKETS ==>
            buckets[c] == if c == bucket && i == 0 then old(chain[0].next) else old(buckets[c]))
      && (i > 0 ==> chain[i - 1].next == old(chain[i].next))
      && (forall e: Entry<V> <- old(Repr) :: (i == 0 || e != chain[i - 1]) ==> e.next == old(e.next))
    }

    twostate lemma LinkedAfterUnlink(bucket: nat, new i: nat)
      requires old(Valid()) && Repr == old(Repr) && bucket < BUCKETS == |chains| && i < |old(chains[bucket])|
      requires Relinked(bucket, i)
      ensures forall b :: 0 <= b < BUCKETS ==> Linked(b)
    {
      ghost var before := old(chains[bucket]);
      assert old(Filed(bucket));
      assert i > 0 ==> BucketOf(before[i - 1].key) == bucket;
      forall b | 0 <= b < BUCKETS && b != bucket ensures Linked(b) {
        ghost var chain := old(chains[b]);
        assert old(Linked(b)) && old(Filed(b)) && chains[b] == chain;
        forall j | 0 <= j < |chain| ensures chain[j].next == Nth(chain, j + 1) {
          assert BucketOf(chain[j].key) == b && chain[j] in chain;
        }
      }
      LinkedWhereUnlinked(bucket, i);
    }

    twostate lemma LinkedWhereUnlinked(bucket: nat, new i: nat)
      requires old(Valid()) && Repr == old(Repr) && bucket < BUCKETS == |chains| && i < |old(chains[bucket])|
      requires Relinked(bucket, i)
      ensures Linked(bucket)
    {
      ghost var before, after := old(chains[bucket]), chains[bucket];
      assert old(Linked(bucket)) && old(Filed(bucket));
      RemoveAt(before, i);
      assert after == Without(before, i);
      forall j | 0 <= j < |after| ensures after[j].next == Nth(after, j + 1) {
        ghost var k := if j < i then j else j + 1;
        assert after[j] == before[k] && before[k] in before;
        assert old(before[k].next) == Nth(before, k + 1);
        assert i > 0 && k != i - 1 ==> before[k].key != before[i - 1].key;
      }
      assert old(before[0].next) == Nth(before, 1);
    }

    twostate lemma FiledAfterUnlink(bucket: nat, new i: nat)
      requires old(Valid()) && bucket < BUCKETS == |chains| && i < |old(chains[bucket])|
      requires chains == old(chains)[bucket := Without(old(chains[bucket]), i)]
      ensures forall b :: 0 <= b < BUCKETS ==> Filed(b)
    {
      RemoveAt(old(chains[bucket]), i);
      hide Without, BucketOf, Hash;
      forall b | 0 <= b < BUCKETS ensures Filed(b) {
        assert old(Filed(b));
      }
    }

    twostate lemma StoresAfterUnlink(bucket: nat, new i: nat)
      requires old(Valid()) && bucket < BUCKETS == |chains| && i < |old(chains[bucket])|
      requires chains == old(chains)[bucket := Without(old(chains[bucket]), i)]
      requires M == old(M) - {old(chains[bucket])[i].key}
      requires forall e: Entry<V> <- old(Repr) :: e.value == old(e.value)
      ensures forall b :: 0 <= b < BUCKETS ==> Stores(b)
    {
      ghost var before := old(chains[bucket]);
      assert old(Filed(bucket));
      RemoveAt(before, i);
      forall b | 0 <= b < BUCKETS ensures Stores(b) {
        ghost var chain := old(chains[b]);
        assert old(Agrees(b)) && old(Filed(b));
        forall j | 0 <= j < |chains[b]| ensures chains[b][j].key in M && M[chains[b][j].key] == chains[b][j].value {
          ghost var k := if b == bucket && j >= i then j + 1 else j;
          assert chains[b][j] == chain[k] && chain[k] in chain && chain[k].key in old(M);
          assert BucketOf(chain[k].key) == b && BucketOf(before[i].key) == bucket;
          assert chain[k].key != before[i].key;
        }
      }
    }

    twostate lemma CoversAfterUnlink(bucket: nat, new i: nat)
      requires old(Valid()) && bucket < BUCKETS == |chains| && i < |old(chains[bucket])|
      requires chains == old(chains)[bucket := Without(old(chains[bucket]), i)]
      requires M == old(M) - {old(chains[bucket])[i].key}
      ensures forall b :: 0 <= b < BUCKETS ==> Covers(b)
    {
      ghost var before := old(chains[bucket]);
      assert old(Covers(bucket)) by {
        assert old(Agrees(bucket));
      }
      forall k | k in M && BucketOf(k) == bucket
        ensures exists j :: 0 <= j < |chains[bucket]| && chains[bucket][j].key == k
      {
        KeyStays(before, i, k);
      }
      forall b | 0 <= b < BUCKETS && b != bucket ensures Covers(b) {
        assert old(Agrees(b)) && old(Covers(b)) && chains[b] == old(chains[b]);
      }
    }

    lemma KeyStays(chain: seq<Entry<V>>, i: nat, key: string)
      requires i < |chain| && key != chain[i].key
      requires exists j :: 0 <= j < |chain| && chain[j].key == key
      ensures exists j :: 0 <= j < |chain| - 1 && Without(chain, i)[j].key == key
    {
      var j :| 0 <= j < |chain| && chain[j].key == key;
      assert Without(chain, i)[if j < i then j else j - 1].key == key;
    }

    lemma RemoveAt(chain: seq<Entry<V>>, i: nat)
      requires i < |chain|
      ensures var r := Without(chain, i);
        && |r| == |chain| - 1
        && (forall j :: 0 <= j < i ==> r[j] == chain[j])
        && (forall j :: i <= j < |r| ==> r[j] == chain[j + 1])
    {
    }

    method Del(key: string) returns (oldValue: Option<V>)
      requires Valid()
      modifies Repr
      ensures Valid() && Repr == old(Repr)
      ensures oldValue == Lookup(old(M), key)
      ensures M == old(M) - {key}
      ensures var b := BucketOf(key);
        if key !in old(M) then chains == old(chains)
        else exists i :: 0 <= i < |old(chains[b])| && old(chains[b])[i].key == key
               && chains == old(chains)[b := Without(old(chains[b]), i)]
    {
      var hash := Djb2(key);
      ghost var i: nat;
      var previous, entry;
      previous, entry, i := Find(key, hash);
      if entry == null {
        return None;
      }
      oldValue := entry.value;
      Unlink(hash % BUCKETS, previous, entry, i);
    }

    /** One call of the iterator, on the entry at position `i` of its chain. */
    method CallIterator(b: nat, entry: Entry<V>, ghost i: nat, deletes: (string, Option<V>) -> bool)
      returns (pair: (string, Option<V>))
      requires Valid() && b < BUCKETS && i < |chains[b]| && entry == chains[b][i]
      modifies Repr
      ensures Valid() && Repr == old(Repr)
      ensures pair.0 == entry.key && pair.0 in old(M) && pair.1 == old(M)[pair.0]
      ensures if deletes(pair.0, pair.1)
              then chains == old(chains)[b := Without(old(chains[b]), i)] && M == old(M) - {pair.0}
              else chains == old(chains) && M == old(M)
    {
      assert Filed(b) && Agrees(b) && Stores(b);
      pair := (entry.key, entry.value);
      if deletes(entry.key, entry.value) {
        var _ := Del(entry.key);
      }
    }

    /** Calls the iterator on each entry of one bucket; the next link is read before each call. */
    method VisitBucket(b: nat, deletes: (string, Option<V>) -> bool) returns (visited: seq<(string, Option<V>)>)
      requires Valid() && b < BUCKETS
      modifies Repr
      ensures Valid() && Repr == old(Repr)
      ensures chains == old(chains)[b := chains[b]]
      ensures Visits(visited, old(chains[b]), old(M))
      ensures M == old(M) - Deleted(visited, deletes)
    {
      visited := [];
      var entry := FirstOf(b);
      ghost var chain: seq<Entry<V>>, n, kept: seq<Entry<V>> := chains[b], 0, [];
      assert Visits(visited, chain[..0], M) && Deleted(visited, deletes) == {};
      hide Valid, Visits, Deleted, Without;
      assert kept + chain[n..] == chain;
      while entry != null
        invariant Valid() && Repr == old(Repr)
        invariant 0 <= n <= |chain| && entry == Nth(chain, n)
        invariant chains == old(chains)[b := kept + chain[n..]]
        invariant Visits(visited, chain[..n], old(M))
        invariant M == old(M) - Deleted(visited, deletes)
        decreases |chain| - n
      {
        var next := NextOf(b, entry, kept, chain, n);
        var pair := CallIterator(b, entry, |kept|, deletes);
        SuffixWithout(kept, chain, n);
        VisitOneMore(visited, chain, n, old(M), pair, deletes);
        visited := visited + [pair];
        if !deletes(pair.0, pair.1) {
          kept := kept + [entry];
        }
        entry := next;
        n := n + 1;
      }
      assert chain[..n] == chain;
    }

    method FirstOf(b: nat) returns (entry: Entry?<V>)
      requires Valid() && b < BUCKETS
      ensures entry == Nth(chains[b], 0)
    {
      assert Linked(b);
      entry := buckets[b];
    }

    method NextOf(b: nat, entry: Entry<V>, ghost kept: seq<Entry<V>>, ghost chain: seq<Entry<V>>, ghost n: nat)
      returns (next: Entry?<V>)
      requires Valid() && b < BUCKETS && n < |chain| && entry == chain[n] && chains[b] == kept + chain[n..]
      ensures next == Nth(chain, n + 1)
    {
      assert Linked(b) && chains[b][|kept|] == entry;
      next := entry.next;
    }

    lemma SuffixWithout(kept: seq<Entry<V>>, chain: seq<Entry<V>>, n: nat)
      requires n < |chain|
      ensures Without(kept + chain[n..], |kept|) == kept + chain[n + 1..]
      ensures kept + chain[n..] == kept + [chain[n]] + chain[n + 1..]
      ensures chain[..n + 1] == chain[..n] + [chain[n]]
    {
    }

    /**
     * Calls the iterator once for each entry that is there at the start, with its value; the
     * iterator may delete the entry it is called on.
     */
    method ForEach(deletes: (string, Option<V>) -> bool) returns (visited: seq<(string, Option<V>)>)
      requires Valid()
      modifies Repr
      ensures Valid() && Repr == old(Repr)
      ensures EachOnce(visited, old(M))
      ensures M == old(M) - Deleted(visited, deletes)
    {
      visited := [];
      ghost var m, start := M, chains;
      AllKeys();
      for b := 0 to BUCKETS
        invariant Valid() && Repr == old(Repr)
        invariant forall c :: b <= c < BUCKETS ==> chains[c] == start[c]
        invariant M == m - Deleted(visited, deletes)
        invariant Among(visited, m, b)
        invariant forall p <- visited :: BucketOf(p.0) < b
      {
        ghost var before := visited;
        var more := VisitBucket(b, deletes);
        visited := visited + more;
        DeletedConcat(before, more, deletes);
        AmongMore(before, more, start[b], m, b);
      }
    }

    lemma AllKeys()
      requires Valid()
      ensures forall b :: 0 <= b < BUCKETS ==> KeysOf(chains[b], M, b)
    {
      forall b | 0 <= b < BUCKETS ensures KeysOf(chains[b], M, b) {
        assert Filed(b) && Agrees(b) && Covers(b);
      }
    }
  }

  /** The keys of the chain are those of the map in bucket `b`, each once. */
  ghost predicate KeysOf<V>(chain: seq<Entry<V>>, m: map<string, Option<V>>, b: nat) {
    && (forall i, j :: 0 <= i < j < |chain| ==> chain[i].key != chain[j].key)
    && (forall i :: 0 <= i < |chain| ==> BucketOf(chain[i].key) == b)
    && (forall k :: k in m && BucketOf(k) == b ==> exists i :: 0 <= i < |chain| && chain[i].key == k)
  }

  /** The calls made for a chain: key and value of each entry, in order. */
  ghost predicate Visits<V>(visited: seq<(string, Option<V>)>, chain: seq<Entry<V>>, m: map<string, Option<V>>) {
    |visited| == |chain|
    && forall i :: 0 <= i < |chain| ==> visited[i].0 == chain[i].key && visited[i].0 in m && visited[i].1 == m[visited[i].0]
  }

  ghost function Deleted<V>(visited: seq<(string, Option<V>)>, deletes: (string, Option<V>) -> bool): set<string> {
    set p | p in visited && deletes(p.0, p.1) :: p.0
  }

  ghost predicate EachOnce<V>(visited: seq<(string, Option<V>)>, m: map<string, Option<V>>) {
    Among(visited, m, BUCKETS)
  }

  /** Exactly the keys of the first `b` buckets were visited, once each, with their values. */
  ghost predicate Among<V>(visited: seq<(string, Option<V>)>, m: map<string, Option<V>>, b: nat) {
    && (forall i, j :: 0 <= i < j < |visited| ==> visited[i].0 != visited[j].0)
    && (forall p <- visited :: p.0 in m && m[p.0] == p.1)
    && (forall k :: k in m && BucketOf(k) < b ==> (k, m[k]) in visited)
  }

  lemma VisitOneMore<V>(visited: seq<(string, Option<V>)>, chain: seq<Entry<V>>, n: nat, m: map<string, Option<V>>,
                        p: (string, Option<V>), deletes: (string, Option<V>) -> bool)
    requires n < |chain| && Visits(visited, chain[..n], m)
    requires var now := m - Deleted(visited, deletes); p.0 == chain[n].key && p.0 in now && p.1 == now[p.0]
    ensures Visits(visited + [p], chain[..n + 1], m)
    ensures m - Deleted(visited + [p], deletes)
      == if deletes(p.0, p.1) then m - Deleted(visited, deletes) - {p.0} else m - Deleted(visited, deletes)
  {
    DeletedSnoc(visited, p, deletes);
    var all, chain' := visited + [p], chain[..n + 1];
    forall i | 0 <= i < n + 1
      ensures all[i].0 == chain'[i].key && all[i].0 in m && all[i].1 == m[all[i].0]
    {
      assert i < n ==> chain'[i] == chain[..n][i] && all[i] == visited[i];
    }
  }

  lemma DeletedSnoc<V>(visited: seq<(string, Option<V>)>, p: (string, Option<V>), deletes: (string, Option<V>) -> bool)
    ensures Deleted(visited + [p], deletes) == Deleted(visited, deletes) + if deletes(p.0, p.1) then {p.0} else {}
  {
  }

  lemma DeletedConcat<V>(a: seq<(string, Option<V>)>, b: seq<(string, Option<V>)>, deletes: (string, Option<V>) -> bool)
    ensures Deleted(a + b, deletes) == Deleted(a, deletes) + Deleted(b, deletes)
  {
  }

  lemma AmongMore<V>(before: seq<(string, Option<V>)>, more: seq<(string, Option<V>)>, chain: seq<Entry<V>>,
                     m: map<string, Option<V>>, b: nat)
    requires Among(before, m, b) && forall p <- before :: BucketOf(p.0) < b
    requires Visits(more, chain, m) && KeysOf(chain, m, b)
    ensures Among(before + more, m, b + 1) && forall p <- before + more :: BucketOf(p.0) < b + 1
  {
    var all := before + more;
    forall i, j | 0 <= i < j < |all| ensures all[i].0 != all[j].0 {
      if i < |before| <= j {
        assert before[i] in before && all[j].0 == chain[j - |before|].key;
      }
    }
    forall k | k in m && BucketOf(k) < b + 1 ensures (k, m[k]) in all {
      if BucketOf(k) == b {
        var i :| 0 <= i < |chain| && chain[i].key == k;
        assert more[i] == (k, m[k]) && all[|before| + i] == more[i];
      }
    }
  }

  // -----------------------------------------------------------------------
  // Whole runs.

  datatype Op<V> = OpGet(key: string) | OpSet(key: string, value: Option<V>) | OpDel(key: string)

  /** The finite map after an operation; each operation returns the old value of its key. */
  function Apply<V>(m: map<string, Option<V>>, op: Op<V>): map<string, Option<V>> {
    match op
    case OpGet(_) => m
    case OpSet(key, value) => m[key := value]
    case OpDel(key) => m - {key}
  }

  function Outcomes<V>(m: map<string, Option<V>>, ops: seq<Op<V>>): seq<Option<V>>
    decreases |ops|
  {
    if ops == [] then [] else [Lookup(m, ops[0].key)] + Outcomes(Apply(m, ops[0]), ops[1..])
  }

  function Final<V>(m: map<string, Option<V>>, ops: seq<Op<V>>): map<string, Option<V>>
    decreases |ops|
  {
    if ops == [] then m else Final(Apply(m, ops[0]), ops[1..])
  }

  /** Over every sequence of operations the table returns and holds what the finite map does. */
  method Run<V>(table: Table<V>, ops: seq<Op<V>>) returns (results: seq<Option<V>>)
    requires table.Valid()
    modifies table.Repr
    ensures table.Valid() && fresh(table.Repr - old(table.Repr))
    ensures results == Outcomes(old(table.M), ops)
    ensures table.M == Final(old(table.M), ops)
  {
    results := [];
    ghost var m := table.M;
    assert ops[0..] == ops;
    for i := 0 to |ops|
      invariant table.Valid() && fresh(table.Repr - old(table.Repr))
      invariant results + Outcomes(table.M, ops[i..]) == Outcomes(m, ops)
      invariant Final(table.M, ops[i..]) == Final(m, ops)
    {
      hide Table.Valid, Outcomes, Final, Apply, Lookup;
      NextOp(results, table.M, ops, i);
      var value := Perform(table, ops[i]);
      results := results + [value];
    }
    assert results + [] == results;
  }

  /** One operation. */
  method Perform<V>(table: Table<V>, op: Op<V>) returns (value: Option<V>)
    requires table.Valid()
    modifies table.Repr
    ensures table.Valid() && fresh(table.Repr - old(table.Repr))
    ensures value == Lookup(old(table.M), op.key) && table.M == Apply(old(table.M), op)
  {
    hide Table.Valid;
    match op
    case OpGet(key) => value := table.Get(key);
    case OpSet(key, v) => value := table.Set(key, v);
    case OpDel(key) => value := table.Del(key);
  }

  lemma NextOp<V>(results: seq<Option<V>>, m: map<string, Option<V>>, ops: seq<Op<V>>, i: nat)
    requires i < |ops|
    ensures results + Outcomes(m, ops[i..])
      == results + [Lookup(m, ops[i].key)] + Outcomes(Apply(m, ops[i]), ops[i + 1..])
    ensures Final(m, ops[i..]) == Final(Apply(m, ops[i]), ops[i + 1..])
  {
    assert ops[i..][1..] == ops[i + 1..];
    hide Apply, Lookup;
    var value, rest := [Lookup(m, ops[i].key)], Outcomes(Apply(m, ops[i]), ops[i + 1..]);
    assert results + (value + rest) == results + value + rest;
  }

  /** Deleting every entry while iterating (`unalias -a`) leaves the table empty. */
  method UnaliasAll<V>(table: Table<V>) returns (visited: seq<(string, Option<V>)>)
    requires table.Valid()
    modifies table.Repr
    ensures table.Valid() && table.M == map[]
    ensures EachOnce(visited, old(table.M))
  {
    visited := table.ForEach((_, _) => true);
    forall k | k in old(table.M) ensures k !in table.M {
      assert (k, old(table.M)[k]) in visited;
    }
  }
}
