/** pugixml.cpp, compact_hash_table: an open-addressing table from object
    addresses to values.  Keys are never removed; key 0 marks an empty bucket. */
module HashTables {
  import opened Probing
  import Arithmetic

  datatype Item = Item(key: int, value: int)

  const EMPTY := Item(0, 0)

  // ---------------------------------------------------------------------
  // Tables as sequences of items.

  function Occupied(s: seq<Item>): (n: nat)
    ensures n <= |s|
  {
    if s == [] then 0 else Occupied(s[..|s| - 1]) + if s[|s| - 1].key != 0 then 1 else 0
  }

  lemma {:induction false} OccupiedUpdate(s: seq<Item>, i: nat, x: Item)
    requires i < |s|
    ensures Occupied(s[i := x]) == Occupied(s) - (if s[i].key != 0 then 1 else 0) + (if x.key != 0 then 1 else 0)
    decreases |s|
  {
    var n := |s| - 1;
    if i < n {
      OccupiedUpdate(s[..n], i, x);
      assert s[i := x][..n] == s[..n][i := x];
    } else {
      assert s[i := x][..n] == s[..n];
    }
  }

  lemma {:induction false} SomeEmpty(s: seq<Item>) returns (i: nat)
    requires Occupied(s) < |s|
    ensures i < |s| && s[i].key == 0
    decreases |s|
  {
    var n := |s| - 1;
    if s[n].key == 0 {
      i := n;
    } else {
      i := SomeEmpty(s[..n]);
    }
  }

  ghost predicate DistinctKeys(s: seq<Item>) {
    forall i, j :: 0 <= i < j < |s| && s[i].key != 0 ==> s[i].key != s[j].key
  }

  // Bucket b is what find reaches for key: on probe p, with no empty bucket before.
  ghost predicate ReachedOn(s: seq<Item>, h: nat, p: nat, b: nat) {
    && 0 < |s| && p < |s| && Bucket(h, p, |s|) == b
    && forall q :: 0 <= q < p ==> s[Bucket(h, q, |s|)].key != 0
  }

  ghost predicate Reachable(s: seq<Item>, h: nat, b: nat) {
    exists p: nat :: ReachedOn(s, h, p, b)
  }

  ghost predicate Probed(s: seq<Item>, hash: int -> nat) {
    forall b: nat :: b < |s| && s[b].key != 0 ==> Reachable(s, hash(s[b].key), b)
  }

  ghost function KeysOf(s: seq<Item>): (k: set<int>) {
    set i | 0 <= i < |s| && s[i].key != 0 :: s[i].key
  }

  ghost function ValueOf(s: seq<Item>, key: int): (v: int)
    requires key in KeysOf(s)
    ensures exists i :: 0 <= i < |s| && s[i].key == key && s[i].value == v
  {
    var i :| 0 <= i < |s| && s[i].key == key;
    s[i].value
  }

  // The map a table stands for.
  ghost function ContentsOf(s: seq<Item>): (m: map<int, int>) {
    map key | key in KeysOf(s) :: ValueOf(s, key)
  }

  lemma {:induction false} ContentsAt(s: seq<Item>, i: nat)
    requires DistinctKeys(s) && i < |s| && s[i].key != 0
    ensures s[i].key in ContentsOf(s) && ContentsOf(s)[s[i].key] == s[i].value
  {
    assert s[i].key in KeysOf(s);
    var v := ValueOf(s, s[i].key);
    var j :| 0 <= j < |s| && s[j].key == s[i].key && s[j].value == v;
    assert !(i < j) && !(j < i);
  }

  // The probes of find on a table with an empty bucket end at an empty bucket at the latest.
  lemma {:induction false} ProbesEnd(s: seq<Item>, h: nat)
    requires IsPow2(|s|) && Occupied(s) < |s|
    ensures exists p :: 0 <= p < |s| && s[Bucket(h, p, |s|)].key == 0
  {
    var b := SomeEmpty(s);
    var p := ProbesCover(h, |s|, b);
  }

  // After p probes that found neither the key nor an empty bucket.
  ghost predicate Passed(s: seq<Item>, h: nat, key: int, p: nat) {
    0 < |s| && forall q :: 0 <= q < p ==> s[Bucket(h, q, |s|)].key != 0 && s[Bucket(h, q, |s|)].key != key
  }

  lemma {:induction false} AbsentWhenEmpty(s: seq<Item>, hash: int -> nat, key: int, p: nat)
    requires Probed(s, hash) && key != 0 && p < |s|
    requires Passed(s, hash(key), key, p) && s[Bucket(hash(key), p, |s|)].key == 0
    ensures key !in KeysOf(s)
  {
    forall i: nat | i < |s| ensures s[i].key != key {
      if s[i].key != 0 {
        assert Reachable(s, hash(s[i].key), i);
        var p' :| ReachedOn(s, hash(s[i].key), p', i);
      }
    }
  }

  // Filling an empty bucket keeps every key reachable and reaches the new one.
  lemma {:induction false} Filled(s: seq<Item>, hash: int -> nat, key: int, value: int, p: nat)
    requires Probed(s, hash) && DistinctKeys(s) && key != 0 && p < |s|
    requires Passed(s, hash(key), key, p) && s[Bucket(hash(key), p, |s|)].key == 0
    ensures var s' := s[Bucket(hash(key), p, |s|) := Item(key, value)];
            && Probed(s', hash) && DistinctKeys(s') && Occupied(s') == Occupied(s) + 1
            && key !in ContentsOf(s) && ContentsOf(s') == ContentsOf(s)[key := value]
  {
    var b0 := Bucket(hash(key), p, |s|);
    var s' := s[b0 := Item(key, value)];
    AbsentWhenEmpty(s, hash, key, p);
    OccupiedUpdate(s, b0, Item(key, value));
    forall b: nat | b < |s'| && s'[b].key != 0 ensures Reachable(s', hash(s'[b].key), b) {
      if b == b0 {
        assert ReachedOn(s', hash(key), p, b);
      } else {
        assert Reachable(s, hash(s[b].key), b);
        var p' :| ReachedOn(s, hash(s[b].key), p', b);
        assert ReachedOn(s', hash(s'[b].key), p', b);
      }
    }
    forall i, j | 0 <= i < j < |s'| && s'[i].key != 0 ensures s'[i].key != s'[j].key {
      assert forall i :: 0 <= i < |s| && s[i].key == key ==> s[i].key in KeysOf(s);
    }
    SameMap(s, s', b0, key, value);
  }

  lemma {:induction false} SameMap(s: seq<Item>, s': seq<Item>, b: nat, key: int, value: int)
    requires DistinctKeys(s) && DistinctKeys(s') && b < |s| && key != 0 && s' == s[b := Item(key, value)]
    requires s[b].key == 0 || s[b].key == key
    ensures ContentsOf(s') == ContentsOf(s)[key := value]
  {
    var m, m' := ContentsOf(s)[key := value], ContentsOf(s');
    forall k ensures (k in m' <==> k in m) && (k in m' ==> m'[k] == m[k]) {
      if k in m' {
        var i :| 0 <= i < |s'| && s'[i].key != 0 && s'[i].key == k;
        ContentsAt(s', i);
        if i != b { ContentsAt(s, i); }
      }
      if k in m {
        if k == key {
          ContentsAt(s', b);
        } else {
          var i :| 0 <= i < |s| && s[i].key != 0 && s[i].key == k;
          ContentsAt(s, i);
          ContentsAt(s', i);
        }
      }
    }
  }

  // ---------------------------------------------------------------------

  class CompactHashTable {
    const hash: int -> nat
    var items: array<Item>
    var capacity: nat
    var count: nat

    ghost predicate Valid()
      reads this, items
    {
      && capacity == items.Length && (capacity == 0 || (32 <= capacity && IsPow2(capacity)))
      && count == Occupied(items[..]) <= capacity - capacity / 4
      && Probed(items[..], hash) && DistinctKeys(items[..])
    }

    ghost function Contents(): (m: map<int, int>)
      reads this, items
    {
      ContentsOf(items[..])
    }

    constructor (hash: int -> nat)
      ensures Valid() && fresh(items) && Contents() == map[] && count == capacity == 0 && this.hash == hash
    {
      this.hash := hash;
      items := new Item[0];
      capacity, count := 0, 0;
    }

    // find: the bucket of the key, -1 if it is not there
    method Find(key: int) returns (slot: int)
      requires Valid() && key != 0
      ensures key in Contents() ==> 0 <= slot < items.Length && items[slot].key == key && items[slot].value == Contents()[key]
      ensures key !in Contents() ==> slot == -1
    {
      if capacity == 0 { return -1; }
      ghost var s := items[..];
      var h := hash(key);
      var bucket := h % capacity;
      var probe := 0;
      while probe < capacity
        invariant 0 <= probe <= capacity && bucket == Bucket(h, probe, capacity)
        invariant Passed(s, h, key, probe)
      {
        var item := items[bucket];
        if item.key == key {
          ContentsAt(s, bucket);
          return bucket;
        }
        if item.key == 0 {
          AbsentWhenEmpty(s, hash, key, probe);
          return -1;
        }
        NextBucket(h, probe, capacity);
        bucket := (bucket + probe + 1) % capacity;
        probe := probe + 1;
      }
      ProbesEnd(s, h);
      assert false;
    }

    // insert: the bucket of the key, taking an empty one if it is new
    method Insert(key: int) returns (slot: nat)
      requires Valid() && key != 0 && capacity != 0 && count < capacity - capacity / 4
      modifies this`count, items
      ensures Valid() && slot < items.Length && items[slot].key == key
      ensures key in old(Contents()) ==> Contents() == old(Contents()) && count == old(count)
      ensures key !in old(Contents()) ==> Contents() == old(Contents())[key := items[slot].value] && count == old(count) + 1
    {
      ghost var s := items[..];
      var h := hash(key);
      var bucket := h % capacity;
      var probe := 0;
      while probe < capacity
        invariant 0 <= probe <= capacity && bucket == Bucket(h, probe, capacity)
        invariant Passed(s, h, key, probe) && items[..] == s && count == old(count)
      {
        var item := items[bucket];
        if item.key == 0 {
          Filled(s, hash, key, item.value, probe);
          items[bucket] := Item(key, item.value);
          count := count + 1;
          assert items[..] == s[bucket := Item(key, item.value)];
          return bucket;
        }
        if item.key == key {
          ContentsAt(s, bucket);
          return bucket;
        }
        NextBucket(h, probe, capacity);
        bucket := (bucket + probe + 1) % capacity;
        probe := probe + 1;
      }
      ProbesEnd(s, h);
      assert false;
    }

    // *insert(key) = value
    method Put(key: int, value: int)
      requires Valid() && key != 0 && capacity != 0 && count < capacity - capacity / 4
      modifies this`count, items
      ensures Valid() && Contents() == old(Contents())[key := value]
      ensures count == if key in old(Contents()) then old(count) else old(count) + 1
    {
      var slot := Insert(key);
      ghost var s, m := items[..], Contents();
      Overwritten(s, hash, slot, value);
      items[slot] := Item(key, value);
      assert items[..] == s[slot := Item(key, value)];
      PutTwice(old(Contents()), key, s[slot].value, value);
    }

    // rehash: the larger table, zeroed
    constructor Larger(hash: int -> nat, capacity: nat)
      requires 32 <= capacity && IsPow2(capacity)
      ensures Valid() && fresh(items) && Contents() == map[] && count == 0 && this.capacity == capacity && this.hash == hash
    {
      this.hash := hash;
      items := new Item[capacity](_ => EMPTY);
      this.capacity, count := capacity, 0;
      new;
      NewTable(capacity, hash);
      assert items[..] == seq(capacity, _ => EMPTY);
    }

    // rehash: every key and value goes into the other table
    method CopyInto(rt: CompactHashTable)
      requires Valid() && rt.Valid() && rt != this && rt.items != items
      requires rt.count == 0 && rt.Contents() == map[] && count < rt.capacity - rt.capacity / 4
      modifies rt`count, rt.items
      ensures rt.Valid() && rt.count == count && rt.Contents() == Contents()
    {
      ghost var s := items[..];
      NewTable(0, hash);
      assert s[..0] == seq(0, _ => EMPTY);
      for i := 0 to capacity
        invariant items[..] == s && rt.Valid()
        invariant rt.count == Occupied(s[..i]) && rt.Contents() == ContentsOf(s[..i])
      {
        OccupiedPrefix(s, i);
        ContentsPrefix(s, i);
        if items[i].key != 0 { rt.Put(items[i].key, items[i].value); }
      }
      assert s[..capacity] == s;
    }

    // rehash: fails only if there is no memory for the larger table
    method Rehash(memory: bool) returns (ok: bool)
      requires Valid()
      modifies this`items, this`capacity
      ensures Valid() && Contents() == old(Contents()) && ok == memory
      ensures ok ==> capacity == (if old(capacity) == 0 then 32 else 2 * old(capacity)) && fresh(items)
      ensures !ok ==> capacity == old(capacity) && items == old(items)
    {
      if !memory { return false; }
      DoublePow2(capacity);
      var rt := new CompactHashTable.Larger(hash, if capacity == 0 then 32 else capacity * 2);
      CopyInto(rt);
      capacity := rt.capacity;
      items := rt.items;
      assert count == rt.count;
      ok := true;
    }

    /** reserve: after it succeeds, sixteen keys can be put in. */
    method Reserve(memory: bool) returns (ok: bool)
      requires Valid()
      modifies this`items, this`capacity
      ensures Valid() && Contents() == old(Contents())
      ensures ok ==> count + 16 <= capacity - capacity / 4
      ensures memory ==> ok
      ensures items == old(items) || fresh(items)
    {
      if count + 16 >= capacity - capacity / 4 {
        ok := Rehash(memory);
      } else {
        ok := true;
      }
    }
  }

  lemma {:induction false} OccupiedPrefix(s: seq<Item>, i: nat)
    requires i <= |s|
    ensures Occupied(s[..i]) <= Occupied(s)
    ensures i < |s| && s[i].key != 0 ==> Occupied(s[..i]) < Occupied(s)
    decreases |s|
  {
    if i < |s| {
      OccupiedPrefix(s[..|s| - 1], i);
      assert s[..|s| - 1][..i] == s[..i];
    } else {
      assert s[..i] == s;
    }
  }

  lemma {:induction false} PrefixDistinct(s: seq<Item>, i: nat)
    requires DistinctKeys(s) && i <= |s|
    ensures DistinctKeys(s[..i])
  {
  }

  // One more bucket of the old table.
  lemma {:induction false} ContentsPrefix(s: seq<Item>, i: nat)
    requires DistinctKeys(s) && i < |s|
    ensures Occupied(s[..i + 1]) == Occupied(s[..i]) + if s[i].key != 0 then 1 else 0
    ensures s[i].key == 0 ==> ContentsOf(s[..i + 1]) == ContentsOf(s[..i])
    ensures s[i].key != 0 ==> s[i].key !in ContentsOf(s[..i]) && ContentsOf(s[..i + 1]) == ContentsOf(s[..i])[s[i].key := s[i].value]
  {
    var a, b := s[..i], s[..i + 1];
    assert b[..i] == a;
    PrefixDistinct(s, i + 1);
    OneMore(a, b, s[i]);
  }

  lemma {:induction false} OneMore(a: seq<Item>, b: seq<Item>, x: Item)
    requires b == a + [x] && DistinctKeys(b)
    ensures x.key == 0 ==> ContentsOf(b) == ContentsOf(a)
    ensures x.key != 0 ==> x.key !in ContentsOf(a) && ContentsOf(b) == ContentsOf(a)[x.key := x.value]
  {
    var old', new' := ContentsOf(a), ContentsOf(b);
    forall k | k in old' ensures k in new' && new'[k] == old'[k] && k != x.key { OldItem(a, b, x, k); }
    forall k | k in new' ensures k in old' || (x.key != 0 && k == x.key) { NewItem(a, b, x, k); }
    if x.key != 0 { ContentsAt(b, |a|); }
  }

  lemma {:induction false} OldItem(a: seq<Item>, b: seq<Item>, x: Item, k: int)
    requires b == a + [x] && DistinctKeys(b) && k in ContentsOf(a)
    ensures k in ContentsOf(b) && ContentsOf(b)[k] == ContentsOf(a)[k] && k != x.key
  {
    var j :| 0 <= j < |a| && a[j].key != 0 && a[j].key == k;
    assert b[..|a|] == a;
    PrefixDistinct(b, |a|);
    ContentsAt(a, j);
    assert b[j] == a[j] && b[|a|] == x;
    ContentsAt(b, j);
  }

  lemma {:induction false} NewItem(a: seq<Item>, b: seq<Item>, x: Item, k: int)
    requires b == a + [x] && k in ContentsOf(b)
    ensures k in ContentsOf(a) || (x.key != 0 && k == x.key)
  {
    var j :| 0 <= j < |b| && b[j].key != 0 && b[j].key == k;
    if j < |a| { assert a[j] == b[j]; }
  }

  lemma {:induction false} NewTable(c: nat, hash: int -> nat)
    ensures var s := seq(c, _ => EMPTY); Occupied(s) == 0 && Probed(s, hash) && DistinctKeys(s) && ContentsOf(s) == map[]
  {
    var s := seq(c, _ => EMPTY);
    NoneOccupied(s);
  }

  lemma {:induction false} NoneOccupied(s: seq<Item>)
    requires forall i :: 0 <= i < |s| ==> s[i].key == 0
    ensures Occupied(s) == 0
    decreases |s|
  {
    if s != [] { NoneOccupied(s[..|s| - 1]); }
  }

  lemma {:induction false} DoublePow2(c: nat)
    ensures IsPow2(32) && (IsPow2(c) ==> IsPow2(2 * c))
  {
    assert Pow2(2) == 4 && Pow2(4) == 16 && Pow2(5) == 32;
    if IsPow2(c) {
      var k: nat :| Pow2(k) == c;
      assert Pow2(k + 1) == 2 * c;
    }
  }

  lemma PutTwice(m: map<int, int>, key: int, v: int, w: int)
    ensures m[key := v][key := w] == m[key := w]
  {
  }

  lemma NextBucket(h: nat, probe: nat, c: nat)
    requires 0 < c
    ensures Bucket(h, probe + 1, c) == (Bucket(h, probe, c) + probe + 1) % c
  {
    var x := h + Tri(probe);
    assert Tri(probe + 1) == Tri(probe) + probe + 1;
    Arithmetic.AddRemainder(x, probe + 1, c);
  }

  lemma {:induction false} Overwritten(s: seq<Item>, hash: int -> nat, b: nat, value: int)
    requires Probed(s, hash) && DistinctKeys(s) && b < |s| && s[b].key != 0
    ensures var s' := s[b := Item(s[b].key, value)];
            Probed(s', hash) && DistinctKeys(s') && Occupied(s') == Occupied(s) && ContentsOf(s') == ContentsOf(s)[s[b].key := value]
  {
    var s' := s[b := Item(s[b].key, value)];
    OccupiedUpdate(s, b, Item(s[b].key, value));
    forall a: nat | a < |s'| && s'[a].key != 0 ensures Reachable(s', hash(s'[a].key), a) {
      assert Reachable(s, hash(s[a].key), a);
      var p :| ReachedOn(s, hash(s[a].key), p, a);
      assert ReachedOn(s', hash(s'[a].key), p, a);
    }
    SameMap(s, s', b, s[b].key, value);
  }
}
