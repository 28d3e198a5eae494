/**
 Runs of the string map: for which initial sizes, and with which operations, every search in every
 table that a program can produce comes to an end.
 */
module StringMapRuns {
  import opened Powers
  import opened Options
  import opened Probing
  import opened StringMaps

  // ---------------------------------------------------------------- runs

  ghost predicate Step<V(!new)>(s: Table<V>, s': Table<V>, hash: string -> nat, clearing: bool) {
    || (exists key: string, value: V :: Inserted(s, s', hash, key, value))
    || (exists key: string :: Removed(s, s', key))
    || (clearing && Cleared(s, s'))
  }

  /** A program that inserts and removes, and clears if `clearing`. */
  ghost predicate IsRun<V(!new)>(size: nat, hash: string -> nat, clearing: bool, st: seq<Table<V>>) {
    && |st| >= 1 && st[0] == Table(Unused(size), 0, 0)
    && forall k :: 0 <= k < |st| - 1 ==> Step(st[k], st[k + 1], hash, clearing)
  }

  ghost predicate SearchEndsFor<V>(a: seq<Bucket<V>>, hash: string -> nat, key: string)
    requires |a| > 0
  {
    exists k: nat :: !Passed(a, hash(key), key, k)
  }

  /** No key makes the probing loop go on for ever. */
  ghost predicate SearchesEnd<V>(a: seq<Bucket<V>>, hash: string -> nat) {
    |a| > 0 ==> forall key: string :: SearchEndsFor(a, hash, key)
  }

  // ---------------------------------------------------------------- a search ends iff a bucket is empty

  function Longest<V>(a: seq<Bucket<V>>): nat {
    if a == [] then 0
    else
      var n := Longest(a[1..]);
      if a[0].Full? && |a[0].item.key| > n then |a[0].item.key| else n
  }

  lemma {:induction false} LongestIs<V>(a: seq<Bucket<V>>, b: nat)
    requires b < |a| && a[b].Full?
    ensures |a[b].item.key| <= Longest(a)
  {
    if b > 0 {
      LongestIs(a[1..], b - 1);
    }
  }

  lemma AbsentKey<V>(a: seq<Bucket<V>>) returns (key: string)
    ensures key !in Keys(a)
  {
    key := seq(Longest(a) + 1, _ => 'a');
    forall b: nat | b < |a| && a[b].Full? ensures a[b].item.key != key {
      LongestIs(a, b);
    }
  }

  /** Without an empty bucket no search for an absent key ends. */
  lemma FullTableHangs<V>(a: seq<Bucket<V>>, hash: string -> nat)
    requires |a| > 0 && !HasEmpty(a)
    ensures forall key: string, k: nat :: key !in Keys(a) ==> Passed(a, hash(key), key, k)
    ensures !SearchesEnd(a, hash)
  {
    forall key: string, k: nat | key !in Keys(a) ensures Passed(a, hash(key), key, k) {
      KeyThere(a);
    }
    var key := AbsentKey(a);
    assert !SearchEndsFor(a, hash, key);
  }

  lemma RoomEnds<V>(a: seq<Bucket<V>>, hash: string -> nat)
    requires PowerOfTwo(|a|) && HasEmpty(a)
    ensures SearchesEnd(a, hash)
  {
    forall key: string ensures SearchEndsFor(a, hash, key) {
      if Passed(a, hash(key), key, |a|) {
        SearchEnds(a, hash(key), |a|);
      }
    }
  }

  // ---------------------------------------------------------------- tables that stay searchable

  /** What inserting and removing keep, from an initial size of 0 or of at least 8. */
  ghost predicate Good<V>(s: Table<V>, hash: string -> nat, m: map<string, V>) {
    && s.items == |m.Keys|
    && if s.buckets == [] then m == map[] && s.tombstones == 0
       else
         && |s.buckets| >= 8 && HasEmpty(s.buckets)
         && Holds(s.buckets, hash, m, Count(s.buckets, IsTombstone)) && s.tombstones == Count(s.buckets, IsTombstone)
  }

  lemma UnusedGood<V>(size: nat, hash: string -> nat)
    requires size == 0 || (PowerOfTwo(size) && size >= 8)
    ensures Good<V>(Table(Unused(size), 0, 0), hash, map[])
  {
    var a: seq<Bucket<V>> := Unused(size);
    if size > 0 {
      EmptyHolds(a, hash);
      assert a[0].Empty?;
    }
  }

  lemma AllocatedGood<V>(s: Table<V>, hash: string -> nat, m: map<string, V>)
    requires Good(s, hash, m)
    ensures Good(Allocated(s), hash, m)
  {
    if s.buckets == [] {
      assert Pow2(4) == 16;
      UnusedGood<V>(16, hash);
    }
  }

  lemma InsertedGood<V>(s: Table<V>, s': Table<V>, hash: string -> nat, key: string, value: V, m: map<string, V>)
    returns (m': map<string, V>)
    requires Good(s, hash, m) && Inserted(s, s', hash, key, value)
    ensures Good(s', hash, m')
  {
    if key in Keys(s.buckets) {
      m' := m;
    } else {
      AllocatedGood(s, hash, m);
      var e := Entry(key, hash(key), value);
      var b: nat :| Filled(Allocated(s), s', e, b);
      m' := m[key := value];
      FilledGood(Allocated(s), s', hash, e, b, m);
    }
  }

  lemma FilledGood<V>(s: Table<V>, s': Table<V>, hash: string -> nat, e: Entry<V>, b: nat, m: map<string, V>)
    requires Good(s, hash, m) && s.buckets != [] && e.hash == hash(e.key) && Filled(s, s', e, b)
    ensures Good(s', hash, m[e.key := e.value])
  {
    FillKeeps(s.buckets, hash, m, b, e);
    var a' := s.buckets[b := Full(e)];
    StaysValid(a', hash, m[e.key := e.value], s.items + 1, Count(a', IsTombstone), s');
  }

  lemma RemovedGood<V>(s: Table<V>, s': Table<V>, hash: string -> nat, key: string, m: map<string, V>)
    returns (m': map<string, V>)
    requires Good(s, hash, m) && Removed(s, s', key)
    ensures Good(s', hash, m')
  {
    if key in Keys(s.buckets) {
      var b: nat :| Buried(s, s', key, b);
      BuryKeeps(s.buckets, hash, m, b);
      m' := m - {key};
    } else {
      m' := m;
    }
  }

  lemma {:induction false} RunGood<V(!new)>(size: nat, hash: string -> nat, st: seq<Table<V>>, k: nat)
    returns (m: map<string, V>)
    requires (size == 0 || (PowerOfTwo(size) && size >= 8)) && IsRun(size, hash, false, st) && k < |st|
    ensures Good(st[k], hash, m)
  {
    if k == 0 {
      m := map[];
      UnusedGood<V>(size, hash);
    } else {
      var before := RunGood(size, hash, st, k - 1);
      var s, s' := st[k - 1], st[k];
      assert Step(s, s', hash, false);
      if key: string, value: V :| Inserted(s, s', hash, key, value) {
        m := InsertedGood(s, s', hash, key, value, before);
      } else {
        var key: string :| Removed(s, s', key);
        m := RemovedGood(s, s', hash, key, before);
      }
    }
  }

  lemma SafeRun<V(!new)>(size: nat, hash: string -> nat, st: seq<Table<V>>)
    requires (size == 0 || (PowerOfTwo(size) && size >= 8)) && IsRun(size, hash, false, st)
    ensures SearchesEnd(st[|st| - 1].buckets, hash)
  {
    var m := RunGood(size, hash, st, |st| - 1);
    if st[|st| - 1].buckets != [] {
      RoomEnds(st[|st| - 1].buckets, hash);
    }
  }

  // ---------------------------------------------------------------- tables that fill up

  /** Tombstones in the first `r` buckets and nothing else. */
  function Ruins<V>(size: nat, r: nat): seq<Bucket<V>> {
    seq(size, i => if i < r then Tombstone else Empty)
  }

  predicate HomeIs(hash: string -> nat, key: string, size: nat, r: nat)
    requires size > 0
  {
    hash(key) % size == r
  }

  ghost predicate IsHome(hash: string -> nat, size: nat, r: nat)
    requires size > 0
  {
    exists key: string :: HomeIs(hash, key, size, r)
  }

  /** Every bucket is the home of some key. */
  ghost predicate Covers(hash: string -> nat, size: nat)
    requires size > 0
  {
    forall r: nat :: r < size ==> IsHome(hash, size, r)
  }

  lemma SomeKey(hash: string -> nat, size: nat, r: nat) returns (key: string)
    requires r < size && Covers(hash, size)
    ensures HomeIs(hash, key, size, r)
  {
    assert IsHome(hash, size, r);
    key :| HomeIs(hash, key, size, r);
  }

  function WithEntry<V>(size: nat, r: nat, b: nat, e: Entry<V>): seq<Bucket<V>>
    requires b < size
  {
    Ruins(size, r)[b := Full(e)]
  }

  lemma HomeAnswers<V>(a: seq<Bucket<V>>, h: nat, key: string)
    requires |a| > 0 && a[h % |a|].Empty?
    ensures Answer(a, h, key, h % |a|)
  {
    ProbeStep(h, 0, |a|);
    Answers(a, h, key, 0, 0);
  }

  /** An insertion whose home bucket is empty and after which the check does nothing. */
  lemma InsertAtHome<V(!new)>(size: nat, r: nat, b: nat, t: int, hash: string -> nat, key: string, v: V, clearing: bool)
    requires r <= b < size && HomeIs(hash, key, size, b) && NewSize(size, 1, t) == None
    ensures Step(Table(Ruins(size, r), 0, t), Table(WithEntry(size, r, b, Entry(key, hash(key), v)), 1, t), hash, clearing)
  {
    var a, e := Ruins<V>(size, r), Entry(key, hash(key), v);
    var s, s' := Table(a, 0, t), Table(WithEntry(size, r, b, e), 1, t);
    HomeAnswers(a, hash(key), key);
    assert Filled(s, s', e, b);
    assert Allocated(s) == s && Keys(a) == {};
    assert Inserted(s, s', hash, key, v);
  }

  lemma RemoveAt<V(!new)>(size: nat, r: nat, t: int, hash: string -> nat, key: string, v: V, clearing: bool)
    requires r < size
    ensures Step(Table(WithEntry(size, r, r, Entry(key, hash(key), v)), 1, t), Table(Ruins(size, r + 1), 0, t + 1), hash, clearing)
  {
    var a := WithEntry(size, r, r, Entry(key, hash(key), v));
    var s, s' := Table(a, 1, t), Table(Ruins(size, r + 1), 0, t + 1);
    assert a[r := Tombstone] == Ruins(size, r + 1);
    assert Buried(s, s', key, r);
    assert a[r].item.key in Keys(a);
    assert Removed(s, s', key);
  }

  lemma ClearAt<V(!new)>(size: nat, r: nat, b: nat, t: int, hash: string -> nat, e: Entry<V>)
    requires r <= b < size
    ensures Step(Table(WithEntry(size, r, b, e), 1, t), Table(Ruins(size, r), 0, 0), hash, true)
  {
    assert Cleared(Table(WithEntry(size, r, b, e), 1, t), Table(Ruins(size, r), 0, 0));
  }

  lemma Extend<V(!new)>(size: nat, hash: string -> nat, clearing: bool, st: seq<Table<V>>, s: Table<V>)
    returns (st': seq<Table<V>>)
    requires IsRun(size, hash, clearing, st) && Step(st[|st| - 1], s, hash, clearing)
    ensures st' == st + [s] && IsRun(size, hash, clearing, st')
  {
    st' := st + [s];
    forall k | 0 <= k < |st'| - 1 ensures Step(st'[k], st'[k + 1], hash, clearing) {
      if k < |st| - 1 {
        assert Step(st[k], st[k + 1], hash, clearing);
      }
    }
  }

  /** Inserting and removing a key whose home is the first empty bucket leaves one more tombstone. */
  lemma OneMoreRuin<V(!new)>(start: nat, size: nat, r: nat, t: int, hash: string -> nat, v: V, clearing: bool, st: seq<Table<V>>)
    returns (st': seq<Table<V>>)
    requires r < size && Covers(hash, size) && NewSize(size, 1, t) == None
    requires IsRun(start, hash, clearing, st) && st[|st| - 1] == Table(Ruins(size, r), 0, t)
    ensures IsRun(start, hash, clearing, st') && st'[|st'| - 1] == Table(Ruins(size, r + 1), 0, t + 1)
  {
    var key := SomeKey(hash, size, r);
    InsertAtHome(size, r, r, t, hash, key, v, clearing);
    RemoveAt(size, r, t, hash, key, v, clearing);
    st' := Extend(start, hash, clearing, st, Table(WithEntry(size, r, r, Entry(key, hash(key), v)), 1, t));
    st' := Extend(start, hash, clearing, st', Table(Ruins(size, r + 1), 0, t + 1));
  }

  /** From a table with one bucket left, one insertion fills it. */
  lemma LastBucket<V(!new)>(start: nat, size: nat, t: int, hash: string -> nat, v: V, clearing: bool, st: seq<Table<V>>)
    returns (st': seq<Table<V>>)
    requires 0 < size && Covers(hash, size) && NewSize(size, 1, t) == None
    requires IsRun(start, hash, clearing, st) && st[|st| - 1] == Table(Ruins(size, size - 1), 0, t)
    ensures IsRun(start, hash, clearing, st')
    ensures var a := st'[|st'| - 1].buckets; |a| > 0 && !HasEmpty(a)
  {
    var key := SomeKey(hash, size, size - 1);
    InsertAtHome(size, size - 1, size - 1, t, hash, key, v, clearing);
    st' := Extend(start, hash, clearing, st, Table(WithEntry(size, size - 1, size - 1, Entry(key, hash(key), v)), 1, t));
  }

  /** With two or four buckets the check never does anything, so tombstones pile up. */
  lemma {:induction false} PileUp<V(!new)>(start: nat, size: nat, r: nat, hash: string -> nat, v: V, st: seq<Table<V>>)
    returns (st': seq<Table<V>>)
    requires size in {2, 4} && r < size && Covers(hash, size)
    requires IsRun(start, hash, false, st) && st[|st| - 1] == Table(Ruins(size, r), 0, r)
    ensures IsRun(start, hash, false, st') && var a := st'[|st'| - 1].buckets; |a| > 0 && !HasEmpty(a)
    decreases size - r
  {
    if r == size - 1 {
      st' := LastBucket(start, size, r, hash, v, false, st);
    } else {
      st' := OneMoreRuin(start, size, r, r, hash, v, false, st);
      st' := PileUp(start, size, r + 1, hash, v, st');
    }
  }

  /** A table of one bucket grows to two on the first insertion. */
  lemma GrowsToTwo<V(!new)>(hash: string -> nat, key: string, v: V, clearing: bool)
    requires HomeIs(hash, key, 2, 0)
    ensures Step(Table(Unused(1), 0, 0), Table(WithEntry(2, 0, 0, Entry(key, hash(key), v)), 1, 0), hash, clearing)
  {
    var e := Entry(key, hash(key), v);
    var a: seq<Bucket<V>> := Unused(1);
    var s, s' := Table(a, 0, 0), Table(WithEntry(2, 0, 0, e), 1, 0);
    HomeAnswers(a, hash(key), key);
    var full, c := a[0 := Full(e)], s'.buckets;
    AtHome(c[0 := Empty], hash(key));
    assert PutLast(full, 1, c, 0);
    assert Copied(full, 0, c[0 := Empty]);
    assert Filled(s, s', e, 0);
    assert Allocated(s) == s && Keys(a) == {};
    assert Inserted(s, s', hash, key, v);
  }

  lemma AtHome<V>(a: seq<Bucket<V>>, h: nat)
    requires |a| > 0
    ensures Placed(a, h, h % |a|)
  {
    ProbeStep(h, 0, |a|);
    assert PathClear(a, h, 0);
  }

  /** For initial sizes of 1, 2 and 4 some run of insertions and removals leaves no bucket empty: no
      search for an absent key ends after it. */
  lemma SmallTableFills<V(!new)>(size: nat, hash: string -> nat, v: V) returns (st: seq<Table<V>>)
    requires size in {1, 2, 4} && Covers(hash, 4) && Covers(hash, 2)
    ensures IsRun(size, hash, false, st)
    ensures var a := st[|st| - 1].buckets;
            && |a| > 0 && !HasEmpty(a)
            && forall key: string, k: nat :: key !in Keys(a) ==> Passed(a, hash(key), key, k)
    ensures !SearchesEnd(st[|st| - 1].buckets, hash)
  {
    st := [Table(Unused(size), 0, 0)];
    if size == 1 {
      var key := SomeKey(hash, 2, 0);
      GrowsToTwo(hash, key, v, false);
      st := Extend(1, hash, false, st, Table(WithEntry(2, 0, 0, Entry(key, hash(key), v)), 1, 0));
      RemoveAt(2, 0, 0, hash, key, v, false);
      st := Extend(1, hash, false, st, Table(Ruins(2, 1), 0, 1));
      st := PileUp(1, 2, 1, hash, v, st);
    } else {
      assert Unused<V>(size) == Ruins(size, 0);
      st := PileUp(size, size, 0, hash, v, st);
    }
    FullTableHangs(st[|st| - 1].buckets, hash);
  }

  // ---------------------------------------------------------------- what clearing does

  /** The size of the table once something has been inserted and cleared. */
  function Working(size: nat): nat {
    if size == 0 then 16 else if size == 1 then 2 else size
  }

  lemma WorkingRoom(size: nat, t: int)
    requires PowerOfTwo(size) && size >= 2 && 0 <= t <= 1
    ensures NewSize(size, 1, t) == None
  {
    var m: nat :| size == Pow2(m);
    if m >= 3 {
      Pow2Monotone(3, m);
      assert Pow2(3) == 8;
    }
  }

  lemma WorkingPower(size: nat)
    requires size == 0 || PowerOfTwo(size)
    ensures PowerOfTwo(Working(size)) && Working(size) >= 2
  {
    assert Pow2(4) == 16 && Pow2(1) == 2;
    if size != 0 {
      var m: nat :| size == Pow2(m);
    }
  }

  /** An insertion and `clear` lead to an unused table of the working size. */
  lemma ToWorking<V(!new)>(size: nat, hash: string -> nat, v: V) returns (st: seq<Table<V>>)
    requires (size == 0 || PowerOfTwo(size)) && Covers(hash, Working(size))
    ensures IsRun(size, hash, true, st) && st[|st| - 1] == Table(Ruins(Working(size), 0), 0, 0)
  {
    var z := Working(size);
    WorkingPower(size);
    st := [Table(Unused(size), 0, 0)];
    assert Unused<V>(z) == Ruins(z, 0);
    if size != z {
      var key := SomeKey(hash, z, 0);
      var s := Table(WithEntry(z, 0, 0, Entry(key, hash(key), v)), 1, 0);
      if size == 1 {
        GrowsToTwo(hash, key, v, true);
      } else {
        FirstInsertion(hash, key, v);
      }
      st := Extend(size, hash, true, st, s);
      ClearAt(z, 0, 0, 0, hash, Entry(key, hash(key), v));
      st := Extend(size, hash, true, st, Table(Ruins(z, 0), 0, 0));
    }
  }

  lemma FirstInsertion<V(!new)>(hash: string -> nat, key: string, v: V)
    requires HomeIs(hash, key, 16, 0)
    ensures Step(Table(Unused(0), 0, 0), Table(WithEntry(16, 0, 0, Entry(key, hash(key), v)), 1, 0), hash, true)
  {
    var e := Entry(key, hash(key), v);
    var s: Table<V>, s' := Table(Unused(0), 0, 0), Table(WithEntry(16, 0, 0, e), 1, 0);
    assert Unused<V>(16) == Ruins(16, 0);
    HomeAnswers(Ruins<V>(16, 0), hash(key), key);
    assert Filled(Allocated(s), s', e, 0);
    assert Inserted(s, s', hash, key, v);
  }

  /** One more tombstone that is not counted. */
  lemma OneMoreForgotten<V(!new)>(start: nat, size: nat, r: nat, hash: string -> nat, v: V, st: seq<Table<V>>)
    returns (st': seq<Table<V>>)
    requires PowerOfTwo(size) && r + 1 < size && Covers(hash, size)
    requires IsRun(start, hash, true, st) && st[|st| - 1] == Table(Ruins(size, r), 0, 0)
    ensures IsRun(start, hash, true, st') && st'[|st'| - 1] == Table(Ruins(size, r + 1), 0, 0)
  {
    WorkingRoom(size, 0);
    WorkingRoom(size, 1);
    st' := OneMoreRuin(start, size, r, 0, hash, v, true, st);
    var key := SomeKey(hash, size, size - 1);
    var e := Entry(key, hash(key), v);
    InsertAtHome(size, r + 1, size - 1, 1, hash, key, v, true);
    st' := Extend(start, hash, true, st', Table(WithEntry(size, r + 1, size - 1, e), 1, 1));
    ClearAt(size, r + 1, size - 1, 1, hash, e);
    st' := Extend(start, hash, true, st', Table(Ruins(size, r + 1), 0, 0));
  }

  lemma {:induction false} PileUpForgotten<V(!new)>(start: nat, size: nat, r: nat, hash: string -> nat, v: V, st: seq<Table<V>>)
    returns (st': seq<Table<V>>)
    requires PowerOfTwo(size) && size >= 2 && r < size && Covers(hash, size)
    requires IsRun(start, hash, true, st) && st[|st| - 1] == Table(Ruins(size, r), 0, 0)
    ensures IsRun(start, hash, true, st') && var a := st'[|st'| - 1].buckets; |a| > 0 && !HasEmpty(a)
    decreases size - r
  {
    if r == size - 1 {
      WorkingRoom(size, 0);
      st' := LastBucket(start, size, 0, hash, v, true, st);
    } else {
      st' := OneMoreForgotten(start, size, r, hash, v, st);
      st' := PileUpForgotten(start, size, r + 1, hash, v, st');
    }
  }

  /** Whatever the initial size, a program that also clears can leave no bucket empty: the table then
      holds one item, has counted no tombstone and does not grow, and no search for an absent key
      ends. */
  lemma ClearFills<V(!new)>(size: nat, hash: string -> nat, v: V) returns (st: seq<Table<V>>)
    requires (size == 0 || PowerOfTwo(size)) && Covers(hash, Working(size))
    ensures IsRun(size, hash, true, st)
    ensures var a := st[|st| - 1].buckets;
            && |a| > 0 && !HasEmpty(a)
            && forall key: string, k: nat :: key !in Keys(a) ==> Passed(a, hash(key), key, k)
    ensures !SearchesEnd(st[|st| - 1].buckets, hash)
  {
    WorkingPower(size);
    st := ToWorking(size, hash, v);
    st := PileUpForgotten(size, Working(size), 0, hash, v, st);
    FullTableHangs(st[|st| - 1].buckets, hash);
  }

  /** After `clear` has forgotten tombstones, an insertion that reuses one lowers a counter of zero. */
  lemma CounterUnderflows<V>(size: nat, r: nat, hash: string -> nat, key: string, v: V)
    requires PowerOfTwo(size) && 0 < r < size && HomeIs(hash, key, size, 0)
    ensures exists s': Table<V> :: Inserted(Table(Ruins(size, r), 0, 0), s', hash, key, v) && s'.tombstones == -1
  {
    var a, e := Ruins<V>(size, r), Entry(key, hash(key), v);
    var s, s' := Table(a, 0, 0), Table(WithEntry(size, r, 0, e), 1, -1);
    assert a[size - 1].Empty?;
    var k := FirstEmpty(a, hash(key), 0);
    ProbeStep(hash(key), 0, size);
    Answers(a, hash(key), key, k, 0);
    var m: nat :| size == Pow2(m);
    assert m > 0;
    assert NewSize(size, 1, -1) == None;
    assert Filled(s, s', e, 0);
    assert Allocated(s) == s && Keys(a) == {};
    assert Inserted(s, s', hash, key, v);
  }

  lemma {:induction false} FirstEmpty<V>(a: seq<Bucket<V>>, h: nat, from: nat) returns (k: nat)
    requires PowerOfTwo(|a|) && HasEmpty(a) && PathClear(a, h, from)
    ensures PathClear(a, h, k) && a[Probe(h, k, |a|)].Empty?
    decreases |a| - from
  {
    SearchEnds(a, h, from);
    if a[Probe(h, from, |a|)].Empty? {
      k := from;
    } else {
      k := FirstEmpty(a, h, from + 1);
    }
  }

  // ---------------------------------------------------------------- the program's hash function

  const WORD: nat := 0x1_0000_0000

  function Mix(h: nat, c: nat): nat {
    (h * 33 + c) % WORD
  }

  /** Bernstein's hash on 32-bit words. */
  function HashString(key: string): nat {
    if key == "" then 0 else Mix(HashString(key[..|key| - 1]), key[|key| - 1] as nat)
  }

  /** Every word is the hash of some key: its digits to the base 33. */
  lemma {:induction false} HashOfKey(n: nat) returns (key: string)
    requires n < WORD
    ensures HashString(key) == n
  {
    if n == 0 {
      key := "";
    } else {
      var before := HashOfKey(n / 33);
      var c := (n % 33) as char;
      HashSnoc(before, c);
      MixDigits(n);
      key := before + [c];
    }
  }

  lemma HashSnoc(key: string, c: char)
    ensures HashString(key + [c]) == Mix(HashString(key), c as nat)
  {
    assert (key + [c])[..|key|] == key;
  }

  lemma MixDigits(n: nat)
    requires n < WORD
    ensures Mix(n / 33, n % 33) == n
  {
  }

  lemma HashCovers(size: nat)
    requires 0 < size <= WORD
    ensures Covers(HashString, size)
  {
    forall r: nat | r < size ensures IsHome(HashString, size, r) {
      var key := HashOfKey(r);
      IsHomeOf(HashString, key, size, r);
    }
  }

  lemma IsHomeOf(hash: string -> nat, key: string, size: nat, r: nat)
    requires hash(key) == r < size
    ensures IsHome(hash, size, r)
  {
    assert HomeIs(hash, key, size, r);
  }

  // ---------------------------------------------------------------- the theorem

  /** Every search after every run ends exactly if the program does not clear and the initial size
      is 0 or at least 8. */
  lemma SearchesEndExactly<V(!new)>(size: nat, clearing: bool, v: V)
    requires (size == 0 || PowerOfTwo(size)) && size < WORD
    ensures (forall st: seq<Table<V>> :: IsRun(size, HashString, clearing, st) ==>
               SearchesEnd(st[|st| - 1].buckets, HashString)) <==>
            (size == 0 || size >= 8) && !clearing
  {
    if clearing {
      WorkingPower(size);
      HashCovers(Working(size));
      var st := ClearFills(size, HashString, v);
    } else if size == 0 || size >= 8 {
      forall st: seq<Table<V>> | IsRun(size, HashString, false, st)
        ensures SearchesEnd(st[|st| - 1].buckets, HashString)
      {
        SafeRun(size, HashString, st);
      }
    } else {
      SmallPowers(size);
      HashCovers(2);
      HashCovers(4);
      var st := SmallTableFills(size, HashString, v);
    }
  }

  lemma SmallPowers(size: nat)
    requires PowerOfTwo(size) && size < 8
    ensures size in {1, 2, 4}
  {
    var m: nat :| size == Pow2(m);
    if m >= 3 {
      Pow2Monotone(3, m);
    }
    assert Pow2(3) == 8 && Pow2(2) == 4;
  }
}
