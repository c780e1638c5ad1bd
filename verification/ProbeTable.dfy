/**
 The open-addressing hash table with quadratic probing, keyed tombstones and
 load-triggered rehash that the dictionary and the fragment store both use.

 The first part reasons about bucket sequences; the class at the end is the
 table object itself, whose bucket array is replaced by a rehash.
 */
module ProbeTable {
  import opened Primes

  /** A deleted bucket keeps its key: it still blocks the probe paths that run over it. */
  datatype Bucket<+K, +V> = Empty | Deleted(key: K) | Live(key: K, value: V)

  /** The probe loop walks past this bucket when looking for key. */
  predicate Blocks<K(==), V>(b: Bucket<K, V>, key: K) {
    !b.Empty? && b.key != key
  }

  ghost function Occupied<K, V>(bs: seq<Bucket<K, V>>): set<int> {
    set i | 0 <= i < |bs| && !bs[i].Empty?
  }

  ghost function LiveAt<K, V>(bs: seq<Bucket<K, V>>): set<int> {
    set i | 0 <= i < |bs| && bs[i].Live?
  }

  /** Probe k is the first one on the path of key that is empty or holds key. */
  ghost predicate FirstHit<K(!new), V>(bs: seq<Bucket<K, V>>, h: nat, key: K, k: nat)
    requires |bs| > 0
  {
    && (forall j: nat :: j < k ==> Blocks(bs[Probe(h, |bs|, j)], key))
    && !Blocks(bs[Probe(h, |bs|, k)], key)
  }

  ghost predicate WellPlaced<K(!new), V>(bs: seq<Bucket<K, V>>, hash: K -> nat, i: nat)
    requires i < |bs| && !bs[i].Empty?
  {
    exists k: nat :: FirstHit(bs, hash(bs[i].key), bs[i].key, k) && Probe(hash(bs[i].key), |bs|, k) == i
  }

  ghost predicate Sized<K, V>(bs: seq<Bucket<K, V>>) {
    && IsPrime(|bs|) && |bs| % 2 == 1
    && 2 * |Occupied(bs)| < |bs|
  }

  /** The representation invariant of a bucket sequence. */
  ghost predicate WellFormed<K(!new), V>(bs: seq<Bucket<K, V>>, hash: K -> nat) {
    && Sized(bs)
    && forall i :: 0 <= i < |bs| && !bs[i].Empty? ==> WellPlaced(bs, hash, i)
  }

  ghost predicate DistinctKeys<K, V>(bs: seq<Bucket<K, V>>) {
    forall i, j :: 0 <= i < j < |bs| && !bs[i].Empty? && !bs[j].Empty? ==> bs[i].key != bs[j].key
  }

  /** There is no tombstone. */
  ghost predicate Clean<K, V>(bs: seq<Bucket<K, V>>) {
    forall i :: 0 <= i < |bs| ==> !bs[i].Deleted?
  }

  /** The finite map a bucket sequence stands for. */
  ghost function Contents<K, V>(bs: seq<Bucket<K, V>>): (m: map<K, V>)
    requires DistinctKeys(bs)
  {
    map i | 0 <= i < |bs| && bs[i].Live? :: bs[i].key := bs[i].value
  }

  // ---- The probe bound: squares modulo a prime, then the pigeonhole ----

  ghost function ProbeSet(h: nat, p: nat, n: nat): set<int>
    requires p > 0
  {
    set k: nat | k < n :: Probe(h, p, k)
  }

  lemma {:induction false} ProbeSetSize(h: nat, p: nat, n: nat)
    requires IsPrime(p) && p % 2 == 1 && n <= (p + 1) / 2
    ensures |ProbeSet(h, p, n)| == n
  {
    if n > 0 {
      ProbeSetSize(h, p, n - 1);
      var last := Probe(h, p, n - 1);
      assert ProbeSet(h, p, n) == ProbeSet(h, p, n - 1) + {last};
      forall k: nat | k < n - 1 ensures Probe(h, p, k) != last {
        ProbesDistinct(h, p, k, n - 1);
      }
    } else {
      assert ProbeSet(h, p, n) == {};
    }
  }

  lemma SubsetSize<T>(a: set<T>, b: set<T>)
    requires a <= b
    ensures |a| <= |b|
  {
    assert b == a + (b - a);
  }

  /** A path on which probes 0..k all block has met k + 1 distinct occupied buckets. */
  lemma BlockedPathIsShort<K(!new), V>(bs: seq<Bucket<K, V>>, h: nat, key: K, k: nat)
    requires Sized(bs) && k <= (|bs| - 1) / 2
    requires forall j: nat :: j <= k ==> Blocks(bs[Probe(h, |bs|, j)], key)
    ensures k < |Occupied(bs)|
    ensures k + 1 <= (|bs| - 1) / 2
  {
    ProbeSetSize(h, |bs|, k + 1);
    SubsetSize(ProbeSet(h, |bs|, k + 1), Occupied(bs));
  }

  // ---- Where a key is found ----

  lemma HitIsUnique<K(!new), V>(bs: seq<Bucket<K, V>>, h: nat, key: K, j: nat, k: nat)
    requires |bs| > 0 && FirstHit(bs, h, key, j) && FirstHit(bs, h, key, k)
    ensures j == k
  {
  }

  /** The first hit of a key decides membership: no other bucket can hold that key. */
  lemma HitDecides<K(!new), V>(bs: seq<Bucket<K, V>>, hash: K -> nat, key: K, k: nat, i: nat)
    requires WellFormed(bs, hash) && FirstHit(bs, hash(key), key, k)
    requires i < |bs| && !bs[i].Empty? && bs[i].key == key
    ensures i == Probe(hash(key), |bs|, k)
  {
    assert WellPlaced(bs, hash, i);
    var k' :| FirstHit(bs, hash(key), key, k') && Probe(hash(key), |bs|, k') == i;
    HitIsUnique(bs, hash(key), key, k, k');
  }

  lemma KeysAreDistinct<K(!new), V>(bs: seq<Bucket<K, V>>, hash: K -> nat)
    requires WellFormed(bs, hash)
    ensures DistinctKeys(bs)
  {
    forall i, j | 0 <= i < j < |bs| && !bs[i].Empty? && !bs[j].Empty?
      ensures bs[i].key != bs[j].key
    {
      assert WellPlaced(bs, hash, i) && WellPlaced(bs, hash, j);
    }
  }

  lemma HitFindsContents<K(!new), V>(bs: seq<Bucket<K, V>>, hash: K -> nat, key: K, k: nat)
    requires WellFormed(bs, hash) && FirstHit(bs, hash(key), key, k)
    ensures DistinctKeys(bs)
    ensures var b := bs[Probe(hash(key), |bs|, k)];
            && (key in Contents(bs) <==> b.Live?)
            && (b.Live? ==> b.key == key && Contents(bs)[key] == b.value)
  {
    KeysAreDistinct(bs, hash);
    var b := bs[Probe(hash(key), |bs|, k)];
    if b.Live? {
      assert b.key in Contents(bs);
    }
    if key in Contents(bs) {
      var i :| 0 <= i < |bs| && bs[i].Live? && bs[i].key == key;
      HitDecides(bs, hash, key, k, i);
    }
  }

  // ---- Writing the bucket a search ended at ----

  lemma OccupiedAfterWrite<K, V>(bs: seq<Bucket<K, V>>, pos: nat, b: Bucket<K, V>)
    requires pos < |bs| && !b.Empty?
    ensures |Occupied(bs[pos := b])| == |Occupied(bs)| + (if bs[pos].Empty? then 1 else 0)
  {
    var rest := Occupied(bs) - {pos};
    assert Occupied(bs[pos := b]) == rest + {pos};
    assert Occupied(bs) == if bs[pos].Empty? then rest else rest + {pos};
  }

  lemma LiveAfterWrite<K, V>(bs: seq<Bucket<K, V>>, pos: nat, b: Bucket<K, V>)
    requires pos < |bs|
    ensures |LiveAt(bs[pos := b])| == |LiveAt(bs)| - (if bs[pos].Live? then 1 else 0) + (if b.Live? then 1 else 0)
  {
    var rest := LiveAt(bs) - {pos};
    assert LiveAt(bs) == if bs[pos].Live? then rest + {pos} else rest;
    assert LiveAt(bs[pos := b]) == if b.Live? then rest + {pos} else rest;
  }

  /** Writing a bucket for key at the first hit of key keeps every other key on its own first hit. */
  lemma WriteKeepsPlacement<K(!new), V>(bs: seq<Bucket<K, V>>, hash: K -> nat, key: K, k: nat, b: Bucket<K, V>)
    requires WellFormed(bs, hash) && FirstHit(bs, hash(key), key, k)
    requires !b.Empty? && b.key == key
    requires Sized(bs[Probe(hash(key), |bs|, k) := b])
    ensures WellFormed(bs[Probe(hash(key), |bs|, k) := b], hash)
  {
    var pos := Probe(hash(key), |bs|, k);
    var bs' := bs[pos := b];
    forall i | 0 <= i < |bs'| && !bs'[i].Empty?
      ensures WellPlaced(bs', hash, i)
    {
      if i == pos {
        assert FirstHit(bs', hash(key), key, k);
      } else {
        var key' := bs[i].key;
        assert WellPlaced(bs, hash, i);
        var k' :| FirstHit(bs, hash(key'), key', k') && Probe(hash(key'), |bs|, k') == i;
        assert FirstHit(bs', hash(key'), key', k');
      }
    }
  }

  lemma WriteUpdatesContents<K, V>(bs: seq<Bucket<K, V>>, pos: nat, b: Bucket<K, V>)
    requires pos < |bs| && !b.Empty?
    requires DistinctKeys(bs) && DistinctKeys(bs[pos := b])
    requires bs[pos].Empty? || bs[pos].key == b.key
    ensures b.Live? ==> Contents(bs[pos := b]) == Contents(bs)[b.key := b.value]
    ensures b.Deleted? ==> Contents(bs[pos := b]) == Contents(bs) - {b.key}
  {
    var bs' := bs[pos := b];
    assert bs'[pos] == b && forall i :: 0 <= i < |bs| && i != pos ==> bs'[i] == bs[i];
    forall i | 0 <= i < |bs| && i != pos && bs[i].Live?
      ensures bs[i].key != b.key
    {
      assert i < pos || pos < i;
    }
    SameContents(bs', if b.Live? then Contents(bs)[b.key := b.value] else Contents(bs) - {b.key});
  }

  /** A map that has every live bucket's pair, and no key without a live bucket, is the contents. */
  lemma SameContents<K, V>(bs: seq<Bucket<K, V>>, m: map<K, V>)
    requires DistinctKeys(bs)
    requires forall i :: 0 <= i < |bs| && bs[i].Live? ==> bs[i].key in m && m[bs[i].key] == bs[i].value
    requires forall key :: key in m ==> exists i :: 0 <= i < |bs| && bs[i].Live? && bs[i].key == key
    ensures Contents(bs) == m
  {
  }

  /** Everything one write at the first hit of a key changes. */
  lemma WriteAtHit<K(!new), V>(bs: seq<Bucket<K, V>>, hash: K -> nat, key: K, k: nat, b: Bucket<K, V>)
    requires WellFormed(bs, hash) && FirstHit(bs, hash(key), key, k)
    requires !b.Empty? && b.key == key
    requires var pos := Probe(hash(key), |bs|, k);
             bs[pos].Empty? ==> 2 * (|Occupied(bs)| + 1) < |bs|
    ensures var pos := Probe(hash(key), |bs|, k);
            && DistinctKeys(bs)
            && WellFormed(bs[pos := b], hash) && DistinctKeys(bs[pos := b])
            && Contents(bs[pos := b]) == (if b.Live? then Contents(bs)[key := b.value] else Contents(bs) - {key})
            && |Occupied(bs[pos := b])| == |Occupied(bs)| + (if bs[pos].Empty? then 1 else 0)
            && |LiveAt(bs[pos := b])| == |LiveAt(bs)| - (if bs[pos].Live? then 1 else 0) + (if b.Live? then 1 else 0)
  {
    var pos := Probe(hash(key), |bs|, k);
    OccupiedAfterWrite(bs, pos, b);
    LiveAfterWrite(bs, pos, b);
    WriteKeepsPlacement(bs, hash, key, k, b);
    KeysAreDistinct(bs, hash);
    KeysAreDistinct(bs[pos := b], hash);
    WriteUpdatesContents(bs, pos, b);
  }

  // ---- Counting and extending ----

  lemma {:induction false} ContentsSize<K, V>(bs: seq<Bucket<K, V>>)
    requires DistinctKeys(bs)
    ensures |Contents(bs)| == |LiveAt(bs)|
  {
    if |bs| == 0 {
      assert LiveAt(bs) == {};
      assert Contents(bs) == map[];
    } else {
      var n := |bs| - 1;
      ContentsSize(bs[..n]);
      ExtendByOne(bs, n);
      assert bs[..n + 1] == bs;
      assert LiveAt(bs) == LiveAt(bs[..n]) + (if bs[n].Live? then {n} else {});
    }
  }

  lemma ExtendByOne<K, V>(bs: seq<Bucket<K, V>>, n: nat)
    requires n < |bs| && DistinctKeys(bs)
    ensures bs[n].Live? ==> bs[n].key !in Contents(bs[..n])
    ensures var m := Contents(bs[..n]);
            Contents(bs[..n + 1]) == if bs[n].Live? then m[bs[n].key := bs[n].value] else m
    ensures LiveAt(bs[..n + 1]) == LiveAt(bs[..n]) + (if bs[n].Live? then {n} else {})
  {
    var a, b := bs[..n], bs[..n + 1];
    assert b == a + [bs[n]];
    AppendOne(a, bs[n]);
    AppendLive(a, bs[n]);
  }

  lemma AppendLive<K, V>(a: seq<Bucket<K, V>>, x: Bucket<K, V>)
    ensures LiveAt(a + [x]) == LiveAt(a) + (if x.Live? then {|a|} else {})
  {
  }

  lemma AppendOne<K, V>(a: seq<Bucket<K, V>>, x: Bucket<K, V>)
    requires DistinctKeys(a + [x])
    ensures DistinctKeys(a)
    ensures x.Live? ==> x.key !in Contents(a)
    ensures Contents(a + [x]) == (if x.Live? then Contents(a)[x.key := x.value] else Contents(a))
  {
    var b := a + [x];
    assert forall i :: 0 <= i < |a| ==> a[i] == b[i];
    assert b[|a|] == x;
    if x.Live? {
      forall i | 0 <= i < |a| && a[i].Live? ensures a[i].key != x.key {
        assert b[i].key != b[|a|].key;
      }
      SameContents(b, Contents(a)[x.key := x.value]);
    } else {
      SameContents(b, Contents(a));
    }
  }

  lemma AllEmpty<K(!new), V>(bs: seq<Bucket<K, V>>, hash: K -> nat)
    requires IsPrime(|bs|) && |bs| % 2 == 1
    requires forall i :: 0 <= i < |bs| ==> bs[i] == Empty
    ensures WellFormed(bs, hash) && DistinctKeys(bs) && Contents(bs) == map[]
    ensures Occupied(bs) == {} && LiveAt(bs) == {}
  {
    assert Occupied(bs) == {};
    assert LiveAt(bs) == {};
  }

  /** Same status and key in every bucket: the probe paths cannot tell the two apart. */
  ghost predicate SameShape<K, V, W>(a: seq<Bucket<K, V>>, b: seq<Bucket<K, W>>) {
    && |a| == |b|
    && forall i :: 0 <= i < |a| ==>
         && (a[i].Empty? <==> b[i].Empty?) && (a[i].Live? <==> b[i].Live?)
         && (!a[i].Empty? ==> a[i].key == b[i].key)
  }

  lemma ShapeIsEnough<K(!new), V, W>(a: seq<Bucket<K, V>>, b: seq<Bucket<K, W>>, hash: K -> nat)
    requires WellFormed(a, hash) && SameShape(a, b)
    ensures WellFormed(b, hash) && DistinctKeys(b)
    ensures Occupied(a) == Occupied(b) && LiveAt(a) == LiveAt(b)
  {
    assert Occupied(a) == Occupied(b);
    assert LiveAt(a) == LiveAt(b);
    forall i | 0 <= i < |b| && !b[i].Empty? ensures WellPlaced(b, hash, i) {
      assert WellPlaced(a, hash, i);
      var k :| FirstHit(a, hash(a[i].key), a[i].key, k) && Probe(hash(a[i].key), |a|, k) == i;
      assert FirstHit(b, hash(b[i].key), b[i].key, k);
    }
    KeysAreDistinct(b, hash);
  }

  // ---- The table object ----

  class Table<K(==,!new), V> {
    const hash: K -> nat
    const primes: seq<nat>
    var buckets: array<Bucket<K, V>>
    var inuse: nat
    var empty: nat

    ghost predicate Valid()
      reads this, buckets
    {
      && PrimeTable(primes)
      && WellFormed(buckets[..], hash)
      && DistinctKeys(buckets[..])
      && inuse == |LiveAt(buckets[..])|
      && empty == buckets.Length - |Occupied(buckets[..])|
    }

    ghost function Map(): (m: map<K, V>)
      requires Valid()
      reads this, buckets
    {
      Contents(buckets[..])
    }

    /** The load test made before every insert. */
    predicate NeedsRehash()
      reads this, buckets
    {
      empty - 1 <= buckets.Length / 2
    }

    ghost predicate NoTombstones()
      reads this, buckets
    {
      Clean(buckets[..])
    }

    /**
     The next insert respects the load bound, after a rehash if the load test calls for one. A
     table runs out of room only when its live entries reach half of the last tabled prime.
     */
    predicate HasRoom()
      reads this, buckets
    {
      NeedsRehash() ==> |primes| > 0 && 2 * (inuse + 1) < primes[|primes| - 1]
    }

    /**
     The load test asks for a rehash exactly when one more occupied bucket would be half of them, and
     there is room exactly when it would not, or when the last tabled size would take the live ones.
     */
    lemma LoadTest()
      requires Valid()
      ensures NeedsRehash() <==> 2 * (|Occupied(buckets[..])| + 1) >= buckets.Length
      ensures HasRoom() <==>
              || 2 * (|Occupied(buckets[..])| + 1) < buckets.Length
              || 2 * (|Map()| + 1) < primes[|primes| - 1]
    {
      ContentsSize(buckets[..]);
    }

    constructor (hash: K -> nat, primes: seq<nat>, capacity: nat)
      requires PrimeTable(primes)
      ensures this.hash == hash && this.primes == primes
      ensures Valid() && fresh(buckets)
      ensures Map() == map[] && inuse == 0 && NoTombstones()
      ensures empty == buckets.Length
      ensures buckets.Length > 2 * capacity || buckets.Length == primes[|primes| - 1]
      ensures forall i :: 1 <= i < |primes| && primes[i] > 2 * capacity ==> buckets.Length <= primes[i]
    {
      var count := SearchBucketCount(primes, capacity);
      this.hash := hash;
      this.primes := primes;
      buckets := new Bucket<K, V>[count](_ => Empty);
      inuse := 0;
      empty := count;
      new;
      AllEmpty(buckets[..], hash);
    }

    /**
     The probe loop. It ends at the first bucket on the key's path that is empty or
     holds the key, after at most (p - 1) / 2 collisions, and the second wrap-around
     subtraction of the source never applies.
     */
    method Find(key: K) returns (pos: nat, collision: nat)
      requires Valid()
      ensures pos < buckets.Length
      ensures collision <= (buckets.Length - 1) / 2
      ensures FirstHit(buckets[..], hash(key), key, collision)
      ensures pos == Probe(hash(key), buckets.Length, collision)
      ensures key in Map() <==> buckets[pos].Live?
      ensures buckets[pos].Empty? || buckets[pos].key == key
      ensures buckets[pos].Live? ==> Map()[key] == buckets[pos].value
    {
      ghost var bs := buckets[..];
      ghost var h := hash(key);
      var p := buckets.Length;
      pos, collision := hash(key) % p, 0;
      while !buckets[pos].Empty? && buckets[pos].key != key
        invariant collision <= (p - 1) / 2
        invariant pos == Probe(h, p, collision)
        invariant forall j: nat :: j < collision ==> Blocks(bs[Probe(h, p, j)], key)
        decreases p - collision
      {
        BlockedPathIsShort(bs, h, key, collision);
        ProbeStep(h, p, collision + 1);
        collision := collision + 1;
        pos := pos + 2 * collision - 1;
        if pos >= p {
          pos := pos - p;
        }
        assert pos < p; // so the source's second subtraction is never taken
      }
      HitFindsContents(bs, hash, key, collision);
    }

    /** The value stored under key, if any. */
    method Retrieve(key: K) returns (found: bool, pos: nat)
      requires Valid()
      ensures pos < buckets.Length
      ensures found <==> key in Map()
      ensures found ==> buckets[pos] == Live(key, Map()[key])
    {
      var collision;
      pos, collision := Find(key);
      found := buckets[pos].Live?;
    }

    /** Turns the bucket at a live position into a tombstone for its key. */
    method DeleteAt(pos: nat) returns (result: int)
      requires Valid() && pos < buckets.Length
      modifies this`inuse, buckets
      ensures Valid()
      ensures result == (if old(buckets[pos]).Live? then pos else -1)
      ensures old(buckets[pos]).Live? ==> Map() == old(Map()) - {old(buckets[pos]).key}
      ensures old(buckets[pos]).Live? ==> inuse == old(inuse) - 1
      ensures old(buckets[pos]).Live? ==> buckets[..] == old(buckets[..])[pos := Deleted(old(buckets[pos]).key)]
      ensures !old(buckets[pos]).Live? ==> buckets[..] == old(buckets[..]) && inuse == old(inuse)
    {
      if !buckets[pos].Live? {
        return -1;
      }
      ghost var bs := buckets[..];
      var key := buckets[pos].key;
      assert WellPlaced(bs, hash, pos);
      ghost var k :| FirstHit(bs, hash(key), key, k) && Probe(hash(key), |bs|, k) == pos;
      WriteAtHit(bs, hash, key, k, Deleted(key));
      buckets[pos] := Deleted(key);
      inuse := inuse - 1;
      assert buckets[..] == bs[pos := Deleted(key)];
      return pos;
    }

    method Delete(key: K) returns (result: int)
      requires Valid()
      modifies this`inuse, buckets
      ensures Valid()
      ensures Map() == old(Map()) - {key}
      ensures result >= 0 <==> key in old(Map())
      ensures inuse == old(inuse) - (if key in old(Map()) then 1 else 0)
    {
      var pos, collision := Find(key);
      result := DeleteAt(pos);
      assert key !in old(Map()) ==> old(Map()) - {key} == old(Map());
    }

    method Clear()
      requires Valid()
      modifies this`inuse, this`empty, buckets
      ensures Valid() && Map() == map[] && inuse == 0 && empty == buckets.Length && NoTombstones()
    {
      for i := 0 to buckets.Length
        invariant forall j :: 0 <= j < i ==> buckets[j] == Empty
      {
        buckets[i] := Empty;
      }
      inuse := 0;
      empty := buckets.Length;
      AllEmpty(buckets[..], hash);
    }

    /**
     Inserts a pair for an absent key and refuses a present one. Only a full table
     is rehashed first; the termination measure says that no rehash happens inside
     a rehash.
     */
    method Insert(key: K, value: V) returns (result: int)
      requires Valid()
      requires HasRoom()
      modifies this, buckets
      ensures Valid()
      ensures buckets == old(buckets) || fresh(buckets)
      ensures if key in old(Map())
              then result == -1 && Map() == old(Map()) && inuse == old(inuse)
              else 0 <= result < buckets.Length && buckets[result] == Live(key, value)
                   && Map() == old(Map())[key := value] && inuse == old(inuse) + 1
      ensures old(NeedsRehash()) ==> NoTombstones()
      ensures old(NeedsRehash()) ==> buckets.Length > 4 * old(inuse) || buckets.Length == primes[|primes| - 1]
      ensures !old(NeedsRehash()) ==> buckets == old(buckets)
      ensures !old(NeedsRehash()) ==>
                buckets[..] == if result < 0 then old(buckets[..]) else old(buckets[..])[result := Live(key, value)]
      // a tombstone is taken over only by its own key
      ensures !old(NeedsRehash()) && result >= 0 ==>
                old(buckets[..])[result] == Empty || old(buckets[..])[result] == Deleted(key)
      decreases if NeedsRehash() then 5 else 0
    {
      if NeedsRehash() {
        result := RehashAndPlace(key, value);
      } else {
        result := Place(key, value);
      }
    }

    method RehashAndPlace(key: K, value: V) returns (result: int)
      requires Valid() && 2 * (inuse + 1) < primes[|primes| - 1]
      modifies this, buckets
      ensures Valid() && fresh(buckets) && NoTombstones()
      ensures if key in old(Map())
              then result == -1 && Map() == old(Map()) && inuse == old(inuse)
              else 0 <= result < buckets.Length && buckets[result] == Live(key, value)
                   && Map() == old(Map())[key := value] && inuse == old(inuse) + 1
      ensures buckets.Length > 4 * old(inuse) || buckets.Length == primes[|primes| - 1]
      decreases 4
    {
      Rehash();
      ghost var bs := buckets[..];
      result := Place(key, value);
      if result >= 0 {
        CleanUpdate(bs, result, Live(key, value));
      }
    }

    /** The second half of an insert: find the bucket and fill it unless the key is present. */
    method Place(key: K, value: V) returns (result: int)
      requires Valid()
      requires 2 * (buckets.Length - empty + 1) < buckets.Length
      modifies this`inuse, this`empty, buckets
      ensures Valid()
      ensures if key in old(Map())
              then result == -1 && buckets[..] == old(buckets[..]) && inuse == old(inuse) && empty == old(empty)
              else && 0 <= result < buckets.Length
                   && buckets[..] == old(buckets[..])[result := Live(key, value)]
                   && Map() == old(Map())[key := value] && inuse == old(inuse) + 1
                   && (old(buckets[..])[result] == Empty || old(buckets[..])[result] == Deleted(key))
                   && empty == old(empty) - (if old(buckets[..])[result] == Empty then 1 else 0)
    {
      ghost var bs := buckets[..];
      var pos, collision := Find(key);
      if buckets[pos].Live? {
        return -1;
      }
      WriteAtHit(bs, hash, key, collision, Live(key, value));
      if buckets[pos].Empty? {
        empty := empty - 1;
      }
      buckets[pos] := Live(key, value);
      inuse := inuse + 1;
      assert buckets[..] == bs[pos := Live(key, value)];
      return pos;
    }

    /**
     Moves the live buckets to a fresh array sized for twice the live count, or of the last
     tabled size: same map, no tombstone left, and room for the insert that is pending.
     */
    method Rehash()
      requires Valid()
      requires 2 * (inuse + 1) < primes[|primes| - 1]
      modifies this, buckets
      ensures Valid() && fresh(buckets)
      ensures Map() == old(Map()) && inuse == old(inuse)
      ensures NoTombstones() && empty == buckets.Length - inuse
      ensures buckets.Length > 4 * inuse || buckets.Length == primes[|primes| - 1]
      ensures forall i :: 1 <= i < |primes| && primes[i] > 4 * inuse ==> buckets.Length <= primes[i]
      // the pending insert fits: inuse + 1 occupied buckets respect the load bound
      ensures 2 * (inuse + 1) < buckets.Length
      decreases 3
    {
      var target := CopyLive();
      ghost var bs := buckets[..];
      assert bs[..|bs|] == bs;
      buckets, inuse, empty := target.buckets, target.inuse, target.empty;
    }

    /** The loop of a rehash: a new table with every live bucket of this one. */
    method CopyLive() returns (target: Table<K, V>)
      requires Valid() && 2 * (inuse + 1) < primes[|primes| - 1]
      ensures fresh(target) && fresh(target.buckets) && target.hash == hash && target.primes == primes
      ensures target.Copied(buckets[..], buckets.Length) && 2 * (inuse + 1) < target.buckets.Length
      ensures target.buckets.Length > 4 * inuse || target.buckets.Length == primes[|primes| - 1]
      ensures forall i :: 1 <= i < |primes| && primes[i] > 4 * inuse ==> target.buckets.Length <= primes[i]
      decreases 2
    {
      ghost var bs := buckets[..];
      target := new Table<K, V>(hash, primes, 2 * inuse);
      ghost var size := target.buckets.Length;
      for i := 0 to buckets.Length
        invariant fresh(target) && fresh(target.buckets) && target.buckets.Length == size
        invariant target.hash == hash && target.primes == primes
        invariant target.Copied(bs, i)
        invariant buckets[..] == bs
        invariant unchanged(this)
      {
        target.CopyBucket(bs, i, buckets[i]);
      }
    }

    /** This table holds exactly the live buckets among the first n of bs, and no tombstone. */
    ghost predicate Copied(bs: seq<Bucket<K, V>>, n: nat)
      requires n <= |bs| && DistinctKeys(bs)
      reads this, buckets
    {
      && Valid() && NoTombstones()
      && Map() == Contents(bs[..n])
      && inuse == |LiveAt(bs[..n])|
      && empty == buckets.Length - inuse
    }

    /** One round of the rehash loop; the insert it makes finds the new table below its load limit. */
    method CopyBucket(ghost bs: seq<Bucket<K, V>>, ghost i: nat, bucket: Bucket<K, V>)
      requires i < |bs| && bucket == bs[i] && DistinctKeys(bs)
      requires Copied(bs, i) && 2 * (|LiveAt(bs)| + 1) < buckets.Length
      modifies this, buckets
      ensures Copied(bs, i + 1) && buckets == old(buckets)
      decreases 1
    {
      ExtendByOne(bs, i);
      SubsetSize(LiveAt(bs[..i + 1]), LiveAt(bs));
      if bucket.Live? {
        assert |LiveAt(bs[..i + 1])| == |LiveAt(bs[..i])| + 1;
        ghost var former := buckets[..];
        var r := Insert(bucket.key, bucket.value);
        CleanUpdate(former, r, bucket);
        CleanIsLive(buckets[..]);
      }
    }

    /** Overwrites the value of a live bucket in place. */
    method Update(pos: nat, value: V)
      requires Valid() && pos < buckets.Length && buckets[pos].Live?
      modifies buckets
      ensures Valid()
      ensures Map() == old(Map())[old(buckets[pos]).key := value]
    {
      ghost var bs := buckets[..];
      var key := buckets[pos].key;
      assert WellPlaced(bs, hash, pos);
      ghost var k :| FirstHit(bs, hash(key), key, k) && Probe(hash(key), |bs|, k) == pos;
      WriteAtHit(bs, hash, key, k, Live(key, value));
      buckets[pos] := Live(key, value);
      assert buckets[..] == bs[pos := Live(key, value)];
    }

    /** Replaces values without moving a bucket. */
    method Relabel(bs: seq<Bucket<K, V>>)
      requires Valid() && SameShape(buckets[..], bs)
      modifies buckets
      ensures Valid() && buckets[..] == bs
    {
      ShapeIsEnough(buckets[..], bs, hash);
      for i := 0 to buckets.Length
        invariant buckets[..i] == bs[..i]
      {
        buckets[i] := bs[i];
        assert buckets[..i + 1] == buckets[..i] + [bs[i]];
      }
      assert buckets[..] == bs;
    }

    /** The keys of the first live buckets, at most limit of them. */
    method Keys(limit: int) returns (keys: seq<K>)
      requires Valid()
      ensures |keys| == (if limit < 0 then 0 else if limit < inuse then limit else inuse)
      ensures forall i :: 0 <= i < |keys| ==> keys[i] in Map()
      ensures forall i, j :: 0 <= i < j < |keys| ==> keys[i] != keys[j]
      ensures limit >= inuse ==> Map().Keys == set k | k in keys
    {
      ghost var bs := buckets[..];
      keys := [];
      var i := 0;
      while i < buckets.Length && |keys| < limit
        invariant 0 <= i <= buckets.Length
        invariant ListsLive(bs[..i], keys)
        invariant |keys| <= limit || |keys| == 0
      {
        ListOneMore(bs, i, keys);
        if buckets[i].Live? {
          keys := keys + [buckets[i].key];
        }
        i := i + 1;
      }
      ListIsBounded(bs, i, keys);
      if i == buckets.Length {
        assert bs[..i] == bs;
      }
    }
  }

  /** The keys of the live buckets, each once. */
  ghost predicate ListsLive<K, V>(bs: seq<Bucket<K, V>>, keys: seq<K>) {
    && DistinctKeys(bs)
    && |keys| == |LiveAt(bs)|
    && (forall i, j :: 0 <= i < j < |keys| ==> keys[i] != keys[j])
    && (set k | k in keys) == Contents(bs).Keys
  }

  lemma ListOneMore<K, V>(bs: seq<Bucket<K, V>>, i: nat, keys: seq<K>)
    requires i < |bs| && DistinctKeys(bs) && ListsLive(bs[..i], keys)
    ensures ListsLive(bs[..i + 1], if bs[i].Live? then keys + [bs[i].key] else keys)
  {
    ExtendByOne(bs, i);
    if bs[i].Live? {
      SetOfAppend(keys, bs[i].key);
      var m := Contents(bs[..i]);
      assert m[bs[i].key := bs[i].value].Keys == m.Keys + {bs[i].key};
      forall j | 0 <= j < |keys| ensures keys[j] != bs[i].key {
        assert keys[j] in (set k | k in keys);
      }
    }
  }

  lemma SetOfAppend<K>(keys: seq<K>, key: K)
    ensures (set k | k in keys + [key]) == (set k | k in keys) + {key}
  {
  }

  /** A list of a prefix is part of the contents, and all of it when it is as long as the live count. */
  lemma ListIsBounded<K, V>(bs: seq<Bucket<K, V>>, n: nat, keys: seq<K>)
    requires n <= |bs| && DistinctKeys(bs) && ListsLive(bs[..n], keys)
    ensures |keys| <= |LiveAt(bs)|
    ensures forall i :: 0 <= i < |keys| ==> keys[i] in Contents(bs)
    ensures |keys| == |LiveAt(bs)| ==> Contents(bs).Keys == set k | k in keys
  {
    SubsetSize(LiveAt(bs[..n]), LiveAt(bs));
    forall i | 0 <= i < |keys| ensures keys[i] in Contents(bs) {
      assert keys[i] in set k | k in keys;
      var prefix := bs[..n];
      assert keys[i] in Contents(prefix);
      var j :| 0 <= j < |prefix| && prefix[j].Live? && prefix[j].key == keys[i];
      assert bs[j] == prefix[j];
    }
    if |keys| == |LiveAt(bs)| {
      SameLive(bs, n);
    }
  }

  /** A prefix with as many live buckets as the whole has the same contents. */
  lemma SameLive<K, V>(bs: seq<Bucket<K, V>>, n: nat)
    requires n <= |bs| && DistinctKeys(bs) && |LiveAt(bs[..n])| >= |LiveAt(bs)|
    ensures Contents(bs[..n]) == Contents(bs)
  {
    var a := bs[..n];
    assert LiveAt(bs) == LiveAt(a) + (LiveAt(bs) - LiveAt(a));
    assert LiveAt(bs) == LiveAt(a);
    forall i | 0 <= i < |bs| && bs[i].Live? ensures i < n && a[i] == bs[i] {
      assert i in LiveAt(a);
    }
    SameContents(bs, Contents(a));
  }

  lemma CleanIsLive<K, V>(bs: seq<Bucket<K, V>>)
    requires Clean(bs)
    ensures Occupied(bs) == LiveAt(bs)
  {
  }

  lemma CleanUpdate<K, V>(bs: seq<Bucket<K, V>>, i: nat, b: Bucket<K, V>)
    requires Clean(bs) && i < |bs| && !b.Deleted?
    ensures Clean(bs[i := b])
  {
  }
}
