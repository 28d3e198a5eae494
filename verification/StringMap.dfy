/**
 The string-keyed hash table with stored hashes and tombstones, proved to behave as a finite map.
 */
module StringMaps {
  import opened Powers
  import opened Sets
  import opened Options
  import opened Probing

  datatype Entry<V> = Entry(key: string, hash: nat, value: V)
  type Bucket<V> = Slot<Entry<V>>

  // ---------------------------------------------------------------- tables

  predicate HasKey<V>(s: Bucket<V>, key: string) {
    s.Full? && s.item.key == key
  }

  ghost function Keys<V>(a: seq<Bucket<V>>): set<string> {
    set b: nat | b < |a| && a[b].Full? :: a[b].item.key
  }

  ghost predicate Distinct<V>(a: seq<Bucket<V>>) {
    forall b: nat, c: nat :: b < |a| && c < |a| && a[b].Full? && HasKey(a[c], a[b].item.key) ==> b == c
  }

  /** Every item carries the hash of its key and is where a search for that hash looks. */
  ghost predicate Hashed<V>(a: seq<Bucket<V>>, hash: string -> nat)
    requires |a| > 0
  {
    forall b: nat :: b < |a| && a[b].Full? ==> a[b].item.hash == hash(a[b].item.key) && Placed(a, a[b].item.hash, b)
  }

  ghost predicate Binds<V>(a: seq<Bucket<V>>, m: map<string, V>) {
    Keys(a) == m.Keys && forall b: nat :: b < |a| && a[b].Full? ==> a[b].item.key in m && m[a[b].item.key] == a[b].item.value
  }

  /** `a` is a hash table for `m` with `t` tombstones. */
  ghost predicate Holds<V>(a: seq<Bucket<V>>, hash: string -> nat, m: map<string, V>, t: nat) {
    && PowerOfTwo(|a|) && |a| > 0 && Hashed(a, hash) && Distinct(a) && Binds(a, m)
    && Count(a, IsFull) == |m.Keys| && Count(a, IsTombstone) == t
  }

  lemma HashedKept<V>(a: seq<Bucket<V>>, hash: string -> nat, b: nat, s: Bucket<V>)
    requires |a| > 0 && Hashed(a, hash) && b < |a| && !s.Empty?
    requires s.Full? ==> s.item.hash == hash(s.item.key) && Placed(a, s.item.hash, b)
    ensures Hashed(a[b := s], hash)
  {
    var a' := a[b := s];
    forall c: nat | c < |a'| && a'[c].Full?
      ensures a'[c].item.hash == hash(a'[c].item.key) && Placed(a', a'[c].item.hash, c)
    {
      PlacedKept(a, b, s, a'[c].item.hash, c);
    }
  }

  lemma KeyThere<V>(a: seq<Bucket<V>>)
    ensures forall b: nat :: b < |a| && a[b].Full? ==> a[b].item.key in Keys(a)
  {
  }

  lemma PutBinds<V>(a: seq<Bucket<V>>, m: map<string, V>, b: nat, e: Entry<V>)
    requires Binds(a, m) && Distinct(a) && b < |a| && !a[b].Full? && e.key !in m
    ensures Binds(a[b := Full(e)], m[e.key := e.value]) && Distinct(a[b := Full(e)])
  {
    var a' := a[b := Full(e)];
    KeyThere(a);
    forall x | x in Keys(a) ensures x in Keys(a') {
      var c: nat :| c < |a| && a[c].Full? && a[c].item.key == x;
      assert a'[c] == a[c];
    }
    assert a'[b].item.key in Keys(a');
    assert Keys(a') == Keys(a) + {e.key};
  }

  lemma PutHolds<V>(a: seq<Bucket<V>>, hash: string -> nat, m: map<string, V>, t: nat, b: nat, e: Entry<V>)
    requires Holds(a, hash, m, t) && e.key !in m && e.hash == hash(e.key)
    requires b < |a| && !a[b].Full? && Placed(a, e.hash, b)
    ensures a[b].Tombstone? ==> t > 0
    ensures Holds(a[b := Full(e)], hash, m[e.key := e.value], if a[b].Tombstone? then t - 1 else t)
  {
    CountUpdate(a, b, Full(e), IsFull);
    CountUpdate(a, b, Full(e), IsTombstone);
    HashedKept(a, hash, b, Full(e));
    PutBinds(a, m, b, e);
    assert m[e.key := e.value].Keys == m.Keys + {e.key};
  }

  lemma BuryBinds<V>(a: seq<Bucket<V>>, m: map<string, V>, b: nat)
    requires Binds(a, m) && Distinct(a) && b < |a| && a[b].Full?
    ensures Binds(a[b := Tombstone], m - {a[b].item.key}) && Distinct(a[b := Tombstone])
  {
    var a', key := a[b := Tombstone], a[b].item.key;
    forall x | x in Keys(a) && x != key ensures x in Keys(a') {
      var c: nat :| c < |a| && a[c].Full? && a[c].item.key == x;
      assert a'[c] == a[c];
    }
    forall x | x in Keys(a') ensures x in Keys(a) && x != key {
      var c: nat :| c < |a'| && a'[c].Full? && a'[c].item.key == x;
      assert a[c] == a'[c];
    }
    assert Keys(a') == Keys(a) - {key};
  }

  lemma BuryHolds<V>(a: seq<Bucket<V>>, hash: string -> nat, m: map<string, V>, t: nat, b: nat)
    requires Holds(a, hash, m, t) && b < |a| && a[b].Full?
    ensures a[b].item.key in m && Holds(a[b := Tombstone], hash, m - {a[b].item.key}, t + 1)
  {
    CountUpdate(a, b, Tombstone, IsFull);
    CountUpdate(a, b, Tombstone, IsTombstone);
    HashedKept(a, hash, b, Tombstone);
    BuryBinds(a, m, b);
    assert (m - {a[b].item.key}).Keys == m.Keys - {a[b].item.key};
  }

  lemma EmptyHolds<V>(a: seq<Bucket<V>>, hash: string -> nat)
    requires PowerOfTwo(|a|) && forall i :: 0 <= i < |a| ==> a[i].Empty?
    ensures Holds(a, hash, map[], 0)
  {
    var m: nat :| |a| == Pow2(m);
    CountAllEmpty(a);
    assert Keys(a) == {};
  }

  lemma HasRoom<V>(a: seq<Bucket<V>>, hash: string -> nat, m: map<string, V>, t: nat)
    requires Holds(a, hash, m, t) && |m.Keys| + t < |a|
    ensures exists b :: 0 <= b < |a| && a[b].Empty?
  {
    RoomLeft(a);
  }

  /** A search for `key` has passed `k` buckets, none empty and none holding it. */
  predicate Passed<V>(a: seq<Bucket<V>>, h: nat, key: string, k: nat)
    requires |a| > 0
  {
    PathClear(a, h, k) && forall j: nat :: j < k ==> !HasKey(a[Probe(h, j, |a|)], key)
  }

  lemma PassOn<V>(a: seq<Bucket<V>>, h: nat, key: string, k: nat)
    requires |a| > 0 && Passed(a, h, key, k)
    ensures Placed(a, h, Probe(h, k, |a|))
    ensures !a[Probe(h, k, |a|)].Empty? && !HasKey(a[Probe(h, k, |a|)], key) ==> Passed(a, h, key, k + 1)
    ensures NoTombstone(a, h, k) && !a[Probe(h, k, |a|)].Tombstone? ==> NoTombstone(a, h, k + 1)
  {
  }

  lemma Found<V>(a: seq<Bucket<V>>, hash: string -> nat, m: map<string, V>, t: nat, b: nat)
    requires Holds(a, hash, m, t) && b < |a| && a[b].Full?
    ensures a[b].item.key in m && a[b].item.hash == hash(a[b].item.key) && m[a[b].item.key] == a[b].item.value
    ensures forall c :: 0 <= c < |a| && HasKey(a[c], a[b].item.key) ==> c == b
  {
  }

  /** A search that meets an empty bucket has shown that the key is absent. */
  lemma NotThere<V>(a: seq<Bucket<V>>, hash: string -> nat, m: map<string, V>, t: nat, key: string, k: nat)
    requires Holds(a, hash, m, t) && a[Probe(hash(key), k, |a|)].Empty? && Passed(a, hash(key), key, k)
    ensures Placed(a, hash(key), Probe(hash(key), k, |a|)) && key !in m
    ensures forall c :: 0 <= c < |a| ==> !HasKey(a[c], key)
  {
    KeyThere(a);
    if key in m {
      assert key in Keys(a);
      var b: nat :| b < |a| && a[b].Full? && a[b].item.key == key;
      NotBeyondEmpty(a, hash(key), k, b);
    }
  }

  // ---------------------------------------------------------------- where a search ends

  ghost predicate HasEmpty<V>(a: seq<Bucket<V>>) {
    exists b :: 0 <= b < |a| && a[b].Empty?
  }

  ghost predicate EndsAfter<V>(a: seq<Bucket<V>>, h: nat, key: string, k: nat, b: nat)
    requires |a| > 0
  {
    Passed(a, h, key, k) && a[Probe(h, k, |a|)].Empty? && FirstFree(a, h, k, b)
  }

  /** A search for an absent key ends at an empty bucket and answers `b`: the first tombstone on the
      way, or else that empty bucket. */
  ghost predicate Answer<V>(a: seq<Bucket<V>>, h: nat, key: string, b: nat)
    requires |a| > 0
  {
    exists k: nat :: EndsAfter(a, h, key, k, b)
  }

  lemma AnswerFits<V>(a: seq<Bucket<V>>, hash: string -> nat, m: map<string, V>, t: nat, key: string, b: nat)
    requires Holds(a, hash, m, t) && Answer(a, hash(key), key, b)
    ensures b < |a| && !a[b].Full? && Placed(a, hash(key), b) && key !in m
  {
    var k: nat :| EndsAfter(a, hash(key), key, k, b);
    NotThere(a, hash, m, t, key, k);
    var j: nat :| NoTombstone(a, hash(key), j) && j <= k && b == Probe(hash(key), j, |a|) && (j < k ==> a[b].Tombstone?);
    assert PathClear(a, hash(key), j);
  }

  lemma Answers<V>(a: seq<Bucket<V>>, h: nat, key: string, k: nat, j: nat)
    requires |a| > 0 && Passed(a, h, key, k) && a[Probe(h, k, |a|)].Empty?
    requires j <= k && NoTombstone(a, h, j) && (j < k ==> a[Probe(h, j, |a|)].Tombstone?)
    ensures Answer(a, h, key, Probe(h, j, |a|))
  {
    assert EndsAfter(a, h, key, k, Probe(h, j, |a|));
  }

  lemma SearchMeans<V>(a: seq<Bucket<V>>, hash: string -> nat, m: map<string, V>, t: nat, key: string, b: nat)
    requires Holds(a, hash, m, t) && b < |a| && (HasKey(a[b], key) || Answer(a, hash(key), key, b))
    ensures if key in m then HasKey(a[b], key) else Answer(a, hash(key), key, b)
    ensures forall c :: 0 <= c < |a| && HasKey(a[c], key) ==> c == b
  {
    if HasKey(a[b], key) {
      Found(a, hash, m, t, b);
    } else {
      AnswerFits(a, hash, m, t, key, b);
      var k: nat :| EndsAfter(a, hash(key), key, k, b);
      NotThere(a, hash, m, t, key, k);
    }
  }

  lemma FillKeeps<V>(a: seq<Bucket<V>>, hash: string -> nat, m: map<string, V>, b: nat, e: Entry<V>)
    requires Holds(a, hash, m, Count(a, IsTombstone)) && Answer(a, hash(e.key), e.key, b) && e.hash == hash(e.key)
    ensures b < |a| && !a[b].Full? && e.key !in m
    ensures Holds(a[b := Full(e)], hash, m[e.key := e.value], Count(a[b := Full(e)], IsTombstone))
    ensures Count(a[b := Full(e)], IsTombstone) == Count(a, IsTombstone) - if a[b].Tombstone? then 1 else 0
    ensures |m[e.key := e.value].Keys| == |m.Keys| + 1
  {
    AnswerFits(a, hash, m, Count(a, IsTombstone), e.key, b);
    PutHolds(a, hash, m, Count(a, IsTombstone), b, e);
    assert m[e.key := e.value].Keys == m.Keys + {e.key};
  }

  lemma BuryKeeps<V>(a: seq<Bucket<V>>, hash: string -> nat, m: map<string, V>, b: nat)
    requires Holds(a, hash, m, Count(a, IsTombstone)) && b < |a| && a[b].Full?
    ensures a[b].item.key in m && m[a[b].item.key] == a[b].item.value
    ensures Holds(a[b := Tombstone], hash, m - {a[b].item.key}, Count(a[b := Tombstone], IsTombstone))
    ensures Count(a[b := Tombstone], IsTombstone) == Count(a, IsTombstone) + 1
    ensures |m.Keys| == |(m - {a[b].item.key}).Keys| + 1
    ensures HasEmpty(a) ==> HasEmpty(a[b := Tombstone])
  {
    BuryHolds(a, hash, m, Count(a, IsTombstone), b);
    assert (m - {a[b].item.key}).Keys == m.Keys - {a[b].item.key};
    if HasEmpty(a) {
      var c :| 0 <= c < |a| && a[c].Empty?;
      assert a[b := Tombstone][c].Empty?;
    }
  }

  // ---------------------------------------------------------------- the operations on values

  /** The buckets and the two counters. The second counter is an unsigned integer of the program,
      given here by the value it stands for, which can be negative after `Clear`. */
  datatype Table<V> = Table(buckets: seq<Bucket<V>>, items: nat, tombstones: int)

  function Unused<V>(size: nat): seq<Bucket<V>> {
    seq(size, _ => Empty)
  }

  /** The size of the new table, if `n` items and `t` tombstones in `size` buckets call for one. */
  function NewSize(size: nat, n: nat, t: int): Option<nat> {
    if n * 4 > size * 3 then Some(size * 2)
    else if size - (n + t) < size / 8 then Some(size)
    else None
  }

  /** The entries of `a[..i]`, each put into the first empty bucket on its path, in order. */
  ghost predicate Copied<V>(a: seq<Bucket<V>>, i: nat, c: seq<Bucket<V>>)
    requires i <= |a|
  {
    if i == 0 then forall b :: 0 <= b < |c| ==> c[b].Empty?
    else if !a[i - 1].Full? then Copied(a, i - 1, c)
    else exists b: nat :: PutLast(a, i, c, b) && Copied(a, i - 1, c[b := Empty])
  }

  ghost predicate PutLast<V>(a: seq<Bucket<V>>, i: nat, c: seq<Bucket<V>>, b: nat) {
    && 0 < i <= |a| && a[i - 1].Full? && b < |c|
    && c[b] == a[i - 1] && Placed(c[b := Empty], a[i - 1].item.hash, b)
  }

  ghost predicate Rehashed<V>(a: seq<Bucket<V>>, n: nat, t: int, s': Table<V>) {
    match NewSize(|a|, n, t)
    case None => s' == Table(a, n, t)
    case Some(size) => |s'.buckets| == size && Copied(a, |a|, s'.buckets) && s'.items == n && s'.tombstones == 0
  }

  ghost predicate Filled<V>(s: Table<V>, s': Table<V>, e: Entry<V>, b: nat) {
    && b < |s.buckets| && Answer(s.buckets, e.hash, e.key, b)
    && Rehashed(s.buckets[b := Full(e)], s.items + 1, s.tombstones - if s.buckets[b].Tombstone? then 1 else 0, s')
  }

  /** A table of 16 buckets is allocated on first use. */
  function Allocated<V>(s: Table<V>): (r: Table<V>)
    ensures |r.buckets| > 0
  {
    if s.buckets == [] then Table(Unused(16), 0, 0) else s
  }

  ghost predicate Inserted<V>(s: Table<V>, s': Table<V>, hash: string -> nat, key: string, value: V) {
    if key in Keys(s.buckets) then s' == s
    else exists b: nat :: Filled(Allocated(s), s', Entry(key, hash(key), value), b)
  }

  ghost predicate Buried<V>(s: Table<V>, s': Table<V>, key: string, b: nat) {
    b < |s.buckets| && HasKey(s.buckets[b], key) &&
    s'.buckets == s.buckets[b := Tombstone] && s.items == s'.items + 1 && s'.tombstones == s.tombstones + 1
  }

  ghost predicate Removed<V>(s: Table<V>, s': Table<V>, key: string) {
    if key in Keys(s.buckets) then exists b: nat :: Buried(s, s', key, b) else s' == s
  }

  /** Full buckets become empty, tombstones stay, and both counters become zero. */
  ghost predicate Cleared<V>(s: Table<V>, s': Table<V>) {
    if s.items == 0 then s' == s
    else
      && s'.items == 0 && s'.tombstones == 0 && |s'.buckets| == |s.buckets|
      && forall i :: 0 <= i < |s.buckets| ==> s'.buckets[i] == if s.buckets[i].Full? then Empty else s.buckets[i]
  }

  // ---------------------------------------------------------------- rehashing keeps the map

  lemma {:induction false} CopiedHolds<V>(a: seq<Bucket<V>>, hash: string -> nat, i: nat, c: seq<Bucket<V>>)
    returns (m: map<string, V>)
    requires i <= |a| && |a| > 0 && Hashed(a, hash) && Distinct(a) && PowerOfTwo(|c|) && Copied(a, i, c)
    ensures BindsUpTo(a, i, m) && Holds(c, hash, m, 0)
  {
    if i == 0 {
      m := map[];
      NothingCopied(a, hash, c);
    } else if !a[i - 1].Full? {
      m := CopiedHolds(a, hash, i - 1, c);
      BindsNext(a, i, m);
    } else {
      var b: nat :| PutLast(a, i, c, b) && Copied(a, i - 1, c[b := Empty]);
      var m0 := CopiedHolds(a, hash, i - 1, c[b := Empty]);
      BindsNext(a, i, m0);
      m := m0[a[i - 1].item.key := a[i - 1].item.value];
      LastHolds(a, hash, i, c, b, m0);
    }
  }

  lemma NothingCopied<V>(a: seq<Bucket<V>>, hash: string -> nat, c: seq<Bucket<V>>)
    requires PowerOfTwo(|c|) && Copied(a, 0, c)
    ensures BindsUpTo(a, 0, map[]) && Holds(c, hash, map[], 0)
  {
    assert Keys(a[..0]) == {};
    EmptyHolds(c, hash);
  }

  lemma LastHolds<V>(a: seq<Bucket<V>>, hash: string -> nat, i: nat, c: seq<Bucket<V>>, b: nat, m: map<string, V>)
    requires |a| > 0 && Hashed(a, hash) && PutLast(a, i, c, b) && a[i - 1].item.key !in m
    requires Holds(c[b := Empty], hash, m, 0)
    ensures Holds(c, hash, m[a[i - 1].item.key := a[i - 1].item.value], 0)
  {
    var before, e := c[b := Empty], a[i - 1].item;
    PutHolds(before, hash, m, 0, b, e);
    assert before[b := Full(e)] == c;
  }

  lemma RehashHolds<V>(a: seq<Bucket<V>>, hash: string -> nat, m: map<string, V>, t: nat, c: seq<Bucket<V>>)
    requires Holds(a, hash, m, t) && PowerOfTwo(|c|) && Copied(a, |a|, c)
    ensures Holds(c, hash, m, 0)
  {
    var m' := CopiedHolds(a, hash, |a|, c);
    assert a[..|a|] == a;
    BindsUnique(a, m, m');
  }

  lemma CopiedNext<V>(a: seq<Bucket<V>>, i: nat, c: seq<Bucket<V>>, b: nat)
    requires i < |a| && a[i].Full? && b < |c| && Copied(a, i, c) && c[b].Empty? && Placed(c, a[i].item.hash, b)
    ensures Copied(a, i + 1, c[b := a[i]])
  {
    var c' := c[b := a[i]];
    assert c'[b := Empty] == c;
    assert PutLast(a, i + 1, c', b);
  }

  lemma EmptyCounted<V>(a: seq<Bucket<V>>)
    ensures HasEmpty(a) <==> Count(a, IsFull) + Count(a, IsTombstone) < |a|
  {
    CountTotal(a);
    if HasEmpty(a) {
      var b :| 0 <= b < |a| && a[b].Empty?;
      CountUpdate(a, b, Tombstone, IsEmpty);
    }
    if Count(a, IsEmpty) > 0 {
      var b := CountWitness(a, IsEmpty);
      assert a[b].Empty?;
    }
  }

  /** The new table has room for one more than it has to take. */
  lemma NewSizeFits(size: nat, n: nat, t: int)
    requires 0 < size && n <= size
    ensures NewSize(size, n, t).Some? ==> n < NewSize(size, n, t).value && (NewSize(size, n, t).value in {size, size * 2})
  {
  }

  // ---------------------------------------------------------------- the map

  class StringMap<V(0)> {
    const hash: string -> nat
    var table: array<Bucket<V>>
    var numItems: nat
    var numTombstones: int
    ghost var contents: map<string, V>

    function Snapshot(): Table<V>
      reads this, table
    {
      Table(table[..], numItems, numTombstones)
    }

    /** The buckets hold the contents. */
    ghost predicate Sound()
      reads this, table
    {
      && numItems == |contents.Keys|
      && if table.Length == 0 then contents == map[] && numTombstones == 0
         else Holds(table[..], hash, contents, Count(table[..], IsTombstone))
    }

    /** Moreover every search ends. */
    ghost predicate Searchable()
      reads this, table
    {
      Sound() && (table.Length > 0 ==> HasEmpty(table[..]))
    }

    /** Moreover the tombstones are counted, and there are enough buckets for the thresholds. */
    ghost predicate Valid()
      reads this, table
    {
      && Searchable() && numTombstones == Count(table[..], IsTombstone)
      && (table.Length == 0 || table.Length >= 8)
    }

    constructor (initSize: nat, hash: string -> nat)
      requires initSize == 0 || PowerOfTwo(initSize)
      ensures Searchable() && contents == map[] && fresh(table) && this.hash == hash
      ensures Snapshot() == Table(Unused(initSize), 0, 0)
      ensures Valid() <==> initSize == 0 || initSize >= 8
    {
      this.hash := hash;
      table := new Bucket<V>[initSize](_ => Empty);
      numItems, numTombstones := 0, 0;
      contents := map[];
      new;
      if initSize > 0 {
        EmptyHolds(table[..], hash);
        assert table[..][0].Empty?;
      }
    }

    method Init(size: nat)
      requires size == 0 || PowerOfTwo(size)
      modifies this
      ensures fresh(table) && Snapshot() == Table(Unused(if size == 0 then 16 else size), 0, 0)
      ensures Searchable() && contents == map[] && numTombstones == Count(table[..], IsTombstone)
    {
      table := new Bucket<V>[if size == 0 then 16 else size](_ => Empty);
      numItems, numTombstones := 0, 0;
      contents := map[];
      assert Pow2(4) == 16;
      EmptyHolds(table[..], hash);
      if table.Length > 0 {
        assert table[..][0].Empty?;
      }
    }

    /** The bucket that holds `name`, or else the one where it belongs. A table is allocated first
        if there is none. */
    method LookupBucketFor(name: string) returns (bucket: nat)
      requires Searchable()
      modifies this
      ensures Searchable() && contents == old(contents) && Snapshot() == Allocated(old(Snapshot()))
      ensures bucket < table.Length && (if old(table).Length == 0 then fresh(table) else table == old(table))
      ensures if name in contents then HasKey(table[bucket], name) else Answer(table[..], hash(name), name, bucket)
      ensures forall c :: 0 <= c < table.Length && HasKey(table[c], name) ==> c == bucket
      ensures old(Valid()) ==> Valid()
    {
      if table.Length == 0 {
        assert Pow2(4) == 16;
        Init(16);
      }
      bucket := Search(name);
      SearchMeans(table[..], hash, contents, Count(table[..], IsTombstone), name, bucket);
    }

    /** The probing loop of `LookupBucketFor`. */
    method Search(name: string) returns (bucket: nat)
      requires PowerOfTwo(table.Length) && HasEmpty(table[..]) && Hashed(table[..], hash)
      ensures bucket < table.Length
      ensures HasKey(table[bucket], name) || Answer(table[..], hash(name), name, bucket)
    {
      ghost var a := table[..];
      var n, h := table.Length, hash(name);
      bucket := h % n;
      var probeAmt := 1;
      var firstTombstone := -1;
      ghost var k, first := 0, 0;
      ProbeStep(h, 0, n);
      while true
        invariant bucket == Probe(h, k, n) && probeAmt == k + 1 && Passed(a, h, name, k)
        invariant NoTombstone(a, h, first)
        invariant if firstTombstone == -1 then first == k
                  else first < k && firstTombstone == Probe(h, first, n) && a[firstTombstone].Tombstone?
        decreases n - k
      {
        SearchEnds(a, h, k);
        PassOn(a, h, name, k);
        match table[bucket] {
          case Empty =>
            if firstTombstone != -1 {
              bucket := firstTombstone;
            }
            Answers(a, h, name, k, first);
            return;
          case Tombstone =>
            if firstTombstone == -1 {
              firstTombstone := bucket;
            }
          case Full(item) =>
            assert a[bucket] == table[bucket];
            if item.hash == h && item.key == name {
              return;
            }
        }
        ProbeStep(h, k, n);
        bucket := Advance(bucket, probeAmt, n);
        probeAmt := probeAmt + 1;
        k := k + 1;
        first := if firstTombstone == -1 then k else first;
      }
    }

    /** The bucket that holds `key`, or -1. */
    method FindKey(key: string) returns (bucket: int)
      requires Searchable()
      ensures bucket == -1 || 0 <= bucket < table.Length
      ensures bucket == -1 <==> key !in contents
      ensures bucket != -1 ==> HasKey(table[bucket], key)
      ensures forall c :: 0 <= c < table.Length && HasKey(table[c], key) ==> c == bucket
    {
      if table.Length == 0 {
        return -1;
      }
      ghost var a, t := table[..], Count(table[..], IsTombstone);
      var n, h := table.Length, hash(key);
      var b := h % n;
      var probeAmt := 1;
      ghost var k := 0;
      ProbeStep(h, 0, n);
      while true
        invariant 0 <= b < n && b == Probe(h, k, n) && probeAmt == k + 1 && Passed(a, h, key, k)
        decreases n - k
      {
        assert Advance(b, probeAmt, n) == Probe(h, k + 1, n) by {
          ProbeStep(h, k, n);
        }
        SearchEnds(a, h, k);
        PassOn(a, h, key, k);
        match table[b] {
          case Empty =>
            NotThere(a, hash, contents, t, key, k);
            return -1;
          case Tombstone =>
          case Full(item) =>
            Found(a, hash, contents, t, b);
            if item.hash == h && item.key == key {
              return b;
            }
        }
        b := Advance(b, probeAmt, n);
        probeAmt := probeAmt + 1;
        k := k + 1;
      }
    }

    /** Removes `key` and returns its value, if it was bound. */
    method RemoveKey(key: string) returns (r: Option<V>)
      requires Searchable()
      modifies this, table
      ensures Searchable() && table == old(table) && contents == old(contents) - {key}
      ensures Removed(old(Snapshot()), Snapshot(), key)
      ensures r == if key in old(contents) then Some(old(contents)[key]) else None
      ensures old(Valid()) ==> Valid()
    {
      var bucket := FindKey(key);
      assert key in contents <==> key in Keys(table[..]);
      if bucket == -1 {
        assert contents - {key} == contents;
        return None;
      }
      r := Some(table[bucket].item.value);
      Bury(bucket, key);
    }

    /** Leaves a tombstone in the bucket that holds `key`. */
    method Bury(bucket: nat, ghost key: string)
      requires Searchable() && bucket < table.Length && HasKey(table[bucket], key)
      modifies this, table
      ensures Searchable() && table == old(table) && contents == old(contents) - {key}
      ensures Buried(old(Snapshot()), Snapshot(), key, bucket)
      ensures key in old(contents) && old(contents)[key] == old(table[bucket]).item.value
      ensures old(Valid()) ==> Valid()
    {
      ghost var a := table[..];
      BuryKeeps(a, hash, contents, bucket);
      table[bucket] := Tombstone;
      assert table[..] == a[bucket := Tombstone];
      numItems := numItems - 1;
      numTombstones := numTombstones + 1;
      contents := contents - {key};
    }

    /** Puts an entry into the first empty bucket on its path, in a table without tombstones. */
    method Rehome(t: array<Bucket<V>>, e: Entry<V>, ghost m: map<string, V>) returns (bucket: nat)
      requires Holds(t[..], hash, m, 0) && |m.Keys| < t.Length
      modifies t
      ensures bucket < t.Length && old(t[bucket]).Empty? && Placed(old(t[..]), e.hash, bucket)
      ensures t[..] == old(t[..])[bucket := Full(e)]
    {
      ghost var a := t[..];
      HasRoom(a, hash, m, 0);
      var n := t.Length;
      bucket := e.hash % n;
      var probeSize := 1;
      ghost var k := 0;
      ProbeStep(e.hash, 0, n);
      SearchEnds(a, e.hash, 0);
      while !t[bucket].Empty?
        invariant 0 <= bucket < n && bucket == Probe(e.hash, k, n) && probeSize == k + 1 && PathClear(a, e.hash, k)
        invariant t[..] == a && k < n
        decreases n - k
      {
        assert PathClear(a, e.hash, k + 1);
        SearchEnds(a, e.hash, k + 1);
        ProbeStep(e.hash, k, n);
        bucket := Advance(bucket, probeSize, n);
        probeSize := probeSize + 1;
        k := k + 1;
      }
      t[bucket] := Full(e);
    }

    /** Copies every entry, with its stored hash, into another table. */
    method CopyInto(t: array<Bucket<V>>)
      requires table.Length > 0 && Sound() && t != table && PowerOfTwo(t.Length)
      requires (forall b :: 0 <= b < t.Length ==> t[b].Empty?) && |contents.Keys| < t.Length
      modifies t
      ensures Copied(table[..], table.Length, t[..])
    {
      ghost var a := table[..];
      var i := 0;
      while i < table.Length
        invariant 0 <= i <= table.Length && table[..] == a && Copied(a, i, t[..])
      {
        if table[i].Full? {
          ghost var m := CopiedHolds(a, hash, i, t[..]);
          RoomFor(a, contents, i, m);
          ghost var c := t[..];
          var b := Rehome(t, table[i].item, m);
          CopiedNext(a, i, c, b);
        }
        i := i + 1;
      }
    }

    /** Doubles a table that is more than three quarters full, or rebuilds one whose empty buckets
        seem to have become fewer than one in eight. */
    method RehashTable()
      requires table.Length > 0 && Sound()
      modifies this
      ensures Sound() && contents == old(contents) && (table == old(table) || fresh(table))
      ensures Rehashed(old(table[..]), old(numItems), old(numTombstones), Snapshot())
    {
      ghost var a, t := table[..], Count(table[..], IsTombstone);
      var newSize := NewSize(table.Length, numItems, numTombstones);
      if newSize == None {
        return;
      }
      CountTotal(a);
      PowerDoubles(table.Length);
      var larger := new Bucket<V>[newSize.value](_ => Empty);
      CopyInto(larger);
      RehashHolds(a, hash, contents, t, larger[..]);
      table := larger;
      numTombstones := 0;
    }

    /** Fills a bucket found for a key that is not bound. The counter is lowered when the bucket held
        a tombstone, whether that one was counted or not. */
    method Fill(bucket: nat, key: string, value: V)
      requires table.Length > 0 && Sound() && key !in contents
      requires bucket < table.Length && Answer(table[..], hash(key), key, bucket)
      modifies this, table
      ensures Sound() && table == old(table) && contents == old(contents)[key := value]
      ensures table[..] == old(table[..])[bucket := Full(Entry(key, hash(key), value))]
      ensures numTombstones == old(numTombstones) - (if old(table[bucket]).Tombstone? then 1 else 0)
      ensures numItems == old(numItems) + 1
      ensures old(numTombstones == Count(table[..], IsTombstone)) ==> numTombstones == Count(table[..], IsTombstone)
    {
      ghost var a := table[..];
      var e := Entry(key, hash(key), value);
      FillKeeps(a, hash, contents, bucket, e);
      if table[bucket].Tombstone? {
        numTombstones := numTombstones - 1;
      }
      table[bucket] := Full(e);
      assert table[..] == a[bucket := Full(e)];
      numItems := numItems + 1;
      contents := contents[key := value];
    }

    /** `Fill` and the check that follows it. */
    method Store(bucket: nat, key: string, value: V)
      requires Searchable() && table.Length > 0 && key !in contents
      requires bucket < table.Length && Answer(table[..], hash(key), key, bucket)
      modifies this, table
      ensures Sound() && contents == old(contents)[key := value] && (table == old(table) || fresh(table))
      ensures Filled(old(Snapshot()), Snapshot(), Entry(key, hash(key), value), bucket)
      ensures old(Valid()) ==> Valid()
    {
      Fill(bucket, key, value);
      ghost var a, n, t := table[..], numItems, numTombstones;
      RehashTable();
      if old(Valid()) {
        StaysValid(a, hash, contents, n, t, Snapshot());
      }
    }

    /** Binds `key` unless it is bound; the result says whether it was new. */
    method Insert(key: string, value: V) returns (isNew: bool)
      requires Searchable()
      modifies this, table
      ensures Sound() && (table == old(table) || fresh(table))
      ensures isNew == (key !in old(contents))
      ensures contents == if key in old(contents) then old(contents) else old(contents)[key := value]
      ensures Inserted(old(Snapshot()), Snapshot(), hash, key, value)
      ensures old(Valid()) ==> Valid()
    {
      assert key in contents <==> key in Keys(table[..]);
      var bucket := LookupBucketFor(key);
      if table[bucket].Full? {
        if key !in contents {
          AnswerFits(table[..], hash, contents, Count(table[..], IsTombstone), key, bucket);
        }
        return false;
      }
      Store(bucket, key, value);
      return true;
    }

    /** The value bound to `key`, which is bound to `value` first if it has none. */
    method GetOrCreateValue(key: string, value: V) returns (v: V)
      requires Searchable()
      modifies this, table
      ensures Sound() && (table == old(table) || fresh(table))
      ensures v == if key in old(contents) then old(contents)[key] else value
      ensures contents == old(contents)[key := v]
      ensures Inserted(old(Snapshot()), Snapshot(), hash, key, value)
      ensures old(Valid()) ==> Valid()
    {
      assert key in contents <==> key in Keys(table[..]);
      var bucket := LookupBucketFor(key);
      if table[bucket].Full? {
        if key !in contents {
          AnswerFits(table[..], hash, contents, Count(table[..], IsTombstone), key, bucket);
        }
        assert contents[key := contents[key]] == contents;
        return table[bucket].item.value;
      }
      Store(bucket, key, value);
      return value;
    }

    /** Unbinds every key. The tombstones stay in the table but their number is forgotten: the count
        is right afterwards exactly if there were none, or if there was nothing to unbind. */
    method Clear()
      requires Searchable()
      modifies this, table
      ensures Searchable() && table == old(table) && contents == map[] && numItems == 0
      ensures forall i :: 0 <= i < table.Length ==> !table[i].Full?
      ensures Cleared(old(Snapshot()), Snapshot())
      ensures old(Valid()) ==> (Valid() <==> old(contents) == map[] || old(numTombstones) == 0)
    {
      ghost var a := table[..];
      if numItems == 0 {
        KeyThere(a);
        return;
      }
      assert contents != map[];
      forall i | 0 <= i < table.Length && table[i].Full? {
        table[i] := Empty;
      }
      numItems, numTombstones := 0, 0;
      contents := map[];
      ClearedHolds(a, hash, table[..]);
    }
  }

  lemma ClearedHolds<V>(a: seq<Bucket<V>>, hash: string -> nat, c: seq<Bucket<V>>)
    requires PowerOfTwo(|a|) && HasEmpty(a) && |c| == |a|
    requires forall i :: 0 <= i < |a| ==> c[i] == if a[i].Full? then Empty else a[i]
    ensures Holds(c, hash, map[], Count(c, IsTombstone)) && HasEmpty(c)
    ensures Count(c, IsTombstone) == Count(a, IsTombstone)
  {
    KeepsTombstones(a, c);
    assert Keys(c) == {};
    var b :| 0 <= b < |a| && a[b].Empty?;
    assert c[b].Empty?;
  }

  /** After the check some bucket is empty. */
  predicate LeavesRoom(size: nat, n: nat, t: int) {
    match NewSize(size, n, t)
    case Some(s) => n < s
    case None => n + t < size
  }

  /** The thresholds keep a bucket empty, whatever the counts, exactly if there are eight buckets or
      more, or one, which grows at once. */
  lemma ThresholdsExact(size: nat)
    requires PowerOfTwo(size)
    ensures (forall n: nat, t: nat :: 1 <= n && n + t <= size ==> LeavesRoom(size, n, t)) <==> size == 1 || size >= 8
  {
    var m: nat :| size == Pow2(m);
    if m >= 3 {
      Pow2Monotone(3, m);
      assert Pow2(3) == 8;
    } else if m == 2 {
      assert size == 4 && !LeavesRoom(4, 3, 1);
    } else if m == 1 {
      assert size == 2 && !LeavesRoom(2, 1, 1);
    } else {
      assert size == 1;
    }
  }

  /** What an insertion of a new key does to the table: it doubles exactly if more than three quarters
      of the buckets are full then, and otherwise it is rebuilt, which clears the tombstones, exactly
      if fewer than one bucket in eight seems empty. */
  lemma GrowthExact<V>(s: Table<V>, s': Table<V>, e: Entry<V>, b: nat)
    requires s.buckets != [] && Filled(s, s', e, b)
    ensures var size, n := |s.buckets|, s.items + 1;
            var t := s.tombstones - if s.buckets[b].Tombstone? then 1 else 0;
            && s'.items == n
            && |s'.buckets| == (if 4 * n > 3 * size then 2 * size else size)
            && s'.tombstones == (if 4 * n > 3 * size || size - n - t < size / 8 then 0 else t)
            && (4 * n <= 3 * size && size - n - t >= size / 8 ==> s'.buckets == s.buckets[b := Full(e)])
  {
  }

  /** With eight buckets or more, and right counts, the check keeps the table searchable. */
  lemma StaysValid<V>(a: seq<Bucket<V>>, hash: string -> nat, m: map<string, V>, n: nat, t: nat, s': Table<V>)
    requires Holds(a, hash, m, t) && n == |m.Keys| && n >= 1 && |a| >= 8 && Rehashed(a, n, t, s')
    ensures Holds(s'.buckets, hash, m, Count(s'.buckets, IsTombstone)) && HasEmpty(s'.buckets)
    ensures |s'.buckets| >= 8 && s'.tombstones == Count(s'.buckets, IsTombstone) && s'.items == n
  {
    CountTotal(a);
    ThresholdsExact(|a|);
    assert LeavesRoom(|a|, n, t);
    if NewSize(|a|, n, t).Some? {
      NewSizeFits(|a|, n, t);
      PowerDoubles(|a|);
      RehashHolds(a, hash, m, t, s'.buckets);
    }
    EmptyCounted(s'.buckets);
  }

  lemma {:induction false} KeepsTombstones<V>(a: seq<Bucket<V>>, c: seq<Bucket<V>>)
    requires |a| == |c| && forall i :: 0 <= i < |a| ==> c[i] == if a[i].Tombstone? then Tombstone else Empty
    ensures Count(c, IsTombstone) == Count(a, IsTombstone) && Count(c, IsFull) == 0
  {
    if a != [] {
      KeepsTombstones(a[..|a| - 1], c[..|c| - 1]);
    }
  }

  /** `m` is what the first `i` buckets hold. */
  ghost predicate BindsUpTo<V>(a: seq<Bucket<V>>, i: nat, m: map<string, V>)
    requires i <= |a|
  {
    Binds(a[..i], m)
  }

  lemma BindsNext<V>(a: seq<Bucket<V>>, i: nat, m: map<string, V>)
    requires 0 < i <= |a| && Distinct(a) && BindsUpTo(a, i - 1, m)
    ensures a[i - 1].Full? ==> a[i - 1].item.key !in m && BindsUpTo(a, i, m[a[i - 1].item.key := a[i - 1].item.value])
    ensures !a[i - 1].Full? ==> BindsUpTo(a, i, m)
  {
    var last := a[i - 1];
    KeysNext(a, i - 1);
    assert last.Full? ==> m[last.item.key := last.item.value].Keys == m.Keys + {last.item.key};
    assert forall b: nat :: b < i - 1 ==> a[..i][b] == a[..i - 1][b];
  }

  lemma KeysNext<V>(a: seq<Bucket<V>>, i: nat)
    requires i < |a| && Distinct(a)
    ensures Keys(a[..i + 1]) == Keys(a[..i]) + if a[i].Full? then {a[i].item.key} else {}
    ensures a[i].Full? ==> a[i].item.key !in Keys(a[..i])
  {
    var u, v := a[..i], a[..i + 1];
    forall x | x in Keys(u) ensures x in Keys(v) {
      var c: nat :| c < |u| && u[c].Full? && u[c].item.key == x;
      assert v[c] == u[c];
    }
    if a[i].Full? {
      assert v[i].item.key in Keys(v);
    }
  }

  lemma RoomFor<V>(a: seq<Bucket<V>>, m: map<string, V>, i: nat, prefix: map<string, V>)
    requires i < |a| && Binds(a, m) && BindsUpTo(a, i, prefix)
    ensures |prefix.Keys| <= |m.Keys|
  {
    forall x | x in Keys(a[..i]) ensures x in Keys(a) {
      var c: nat :| c < i && a[..i][c].Full? && a[..i][c].item.key == x;
      assert a[c] == a[..i][c];
    }
    SubsetCard(prefix.Keys, m.Keys);
  }

  lemma BindsUnique<V>(a: seq<Bucket<V>>, m: map<string, V>, n: map<string, V>)
    requires Binds(a, m) && Binds(a, n)
    ensures m == n
  {
    forall x | x in m ensures x in n && m[x] == n[x] {
      assert x in Keys(a);
      var b: nat :| b < |a| && a[b].Full? && a[b].item.key == x;
    }
  }
}
