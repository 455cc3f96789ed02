/** The baseline table of hashtable.py as functions of a `Table` value:
    unbounded linear probing without wraparound, `grow` to `2 * capacity`
    by re-putting every stored entry. `fuel` bounds how deeply grows may
    nest (a grow re-puts entries, and a re-put may grow again). */
module HashtableModel {
  import opened Wrappers
  import opened Slots

  /** The loop of `_find_empty` from index `i`: the first empty slot at or
      after `i`, or IndexError once the walk leaves the list. */
  function FirstEmptyFrom<K, V>(s: seq<Slot<K, V>>, i: int): (r: Result<int>)
    decreases |s| - i
    ensures r.Ok? || r == Raised(IndexError)
    ensures r.Ok? ==> 0 <= i <= r.value < |s| && s[r.value].None? && Full(s, i, r.value)
    ensures r.Raised? <==> i < 0 || Full(s, i, |s|)
  {
    if !(0 <= i < |s|) then Raised(IndexError)
    else if s[i].None? then
      assert Full(s, i, i);
      Ok(i)
    else FirstEmptyFrom(s, i + 1)
  }

  /** `_find_empty`: probe from the key's natural index. */
  function FindEmpty<K, V>(cfg: Config<K>, t: Table<K, V>, k: K): (r: Result<int>)
    ensures r.Ok? ==> 0 <= r.value < |t.slots| && t.slots[r.value].None?
  {
    match HashIndex(cfg, t, k)
    case Ok(h) => FirstEmptyFrom(t.slots, h)
    case Raised(e) => Raised(e)
  }

  /** `grow`: double the capacity, start from `capacity` empty slots and
      re-put the old occupied slots in slot order; `size` is kept. */
  function Grow<K(==), V>(cfg: Config<K>, t: Table<K, V>, fuel: nat): (Table<K, V>, Result<()>)
    decreases fuel, 3, 0
  {
    var c := t.capacity * 2;
    Reinsert(cfg, Table(t.size, c, Nones(c)), t.slots, 0, fuel)
  }

  /** The `for entry in old_table` loop of `grow`, from slot `i` on. */
  function Reinsert<K(==), V>(cfg: Config<K>, t: Table<K, V>, oldSlots: seq<Slot<K, V>>, i: nat, fuel: nat)
    : (Table<K, V>, Result<()>)
    decreases fuel, 2, |oldSlots| - i
  {
    if i >= |oldSlots| then (t, Ok(()))
    else if oldSlots[i].None? then Reinsert(cfg, t, oldSlots, i + 1, fuel)
    else
      var (t1, r) := Put(cfg, t, oldSlots[i].value.key, oldSlots[i].value.value, fuel);
      if r.Ok? then Reinsert(cfg, t1, oldSlots, i + 1, fuel) else (t1, r)
  }

  /** The first half of `put`: grow when over capacity, then find the
      empty slot the entry goes to. */
  function PrePut<K(==), V>(cfg: Config<K>, t: Table<K, V>, k: K, fuel: nat): (r: (Table<K, V>, Result<int>))
    decreases fuel, 1, 0
    ensures r.1.Ok? ==> 0 <= r.1.value < |r.0.slots| && r.0.slots[r.1.value].None?
  {
    match OverCapacity(cfg, t)
    case Raised(e) => (t, Raised(e))
    case Ok(over) =>
      if over && fuel == 0 then (t, OutOfFuel)
      else
        var (t1, g) := if over then Grow(cfg, t, fuel - 1) else (t, Ok(()));
        if g.Ok? then (t1, FindEmpty(cfg, t1, k)) else (t1, g.Cast())
  }

  /** `put`: store the entry in the slot `PrePut` found, `size += 1`.
      There is no check for an existing entry with the same key. */
  function Put<K(==), V>(cfg: Config<K>, t: Table<K, V>, k: K, v: V, fuel: nat): (Table<K, V>, Result<()>)
    decreases fuel, 1, 1
  {
    var (t1, r) := PrePut(cfg, t, k, fuel);
    if r.Ok? then (Table(t1.size + 1, t1.capacity, t1.slots[r.value := Some(Entry(k, v))]), Ok(()))
    else (t1, r.Cast())
  }

  // ---------------------------------------------------------------------
  // What put and grow keep: capacity never shrinks, and on a normal
  // return the stored entries are exactly the old ones (plus the new one).

  lemma {:induction false} PrePutFacts<K, V>(cfg: Config<K>, t: Table<K, V>, k: K, fuel: nat)
    requires t.capacity >= 0
    decreases fuel, 1, 0
    ensures var (t1, r) := PrePut(cfg, t, k, fuel);
      t1.capacity >= t.capacity &&
      (r.Ok? ==>
        multiset(Occupied(t1.slots)) == multiset(Occupied(t.slots)) && t1.size >= t.size &&
        HashIndex(cfg, t1, k).Ok? && HashIndex(cfg, t1, k).value <= r.value &&
        Full(t1.slots, HashIndex(cfg, t1, k).value, r.value))
  {
    match OverCapacity(cfg, t)
    case Raised(e) =>
    case Ok(over) =>
      if over && fuel > 0 {
        GrowFacts(cfg, t, fuel - 1);
      }
  }

  lemma {:induction false} PutFacts<K, V>(cfg: Config<K>, t: Table<K, V>, k: K, v: V, fuel: nat)
    requires t.capacity >= 0
    decreases fuel, 1, 1
    ensures var (t', r) := Put(cfg, t, k, v, fuel);
      t'.capacity >= t.capacity &&
      (r.Ok? ==>
        multiset(Occupied(t'.slots)) == multiset(Occupied(t.slots)) + multiset{Entry(k, v)} &&
        t'.size >= t.size + 1)
  {
    PrePutFacts(cfg, t, k, fuel);
    var (t1, r) := PrePut(cfg, t, k, fuel);
    if r.Ok? {
      OccupiedWrite(t1.slots, r.value, Entry(k, v));
    }
  }

  lemma {:induction false} GrowFacts<K, V>(cfg: Config<K>, t: Table<K, V>, fuel: nat)
    requires t.capacity >= 0
    decreases fuel, 3, 0
    ensures var (t', r) := Grow(cfg, t, fuel);
      t'.capacity >= 2 * t.capacity &&
      (exists n: nat :: 1 <= n && t'.capacity == Doubled(t.capacity, n)) &&
      (r.Ok? ==>
        multiset(Occupied(t'.slots)) == multiset(Occupied(t.slots)) &&
        t'.size >= t.size + |Occupied(t.slots)|)
  {
    var c := t.capacity * 2;
    OccupiedNones<K, V>(c);
    ReinsertFacts(cfg, Table(t.size, c, Nones(c)), t.slots, 0, fuel);
    assert t.slots[0..] == t.slots;
    GrowScales(cfg, t, fuel);
  }

  lemma {:induction false} ReinsertFacts<K, V>(cfg: Config<K>, t: Table<K, V>, oldSlots: seq<Slot<K, V>>, i: nat, fuel: nat)
    requires t.capacity >= 0 && i <= |oldSlots|
    decreases fuel, 2, |oldSlots| - i
    ensures var (t', r) := Reinsert(cfg, t, oldSlots, i, fuel);
      t'.capacity >= t.capacity &&
      (r.Ok? ==>
        multiset(Occupied(t'.slots)) == multiset(Occupied(t.slots)) + multiset(Occupied(oldSlots[i..])) &&
        t'.size >= t.size + |Occupied(oldSlots[i..])|)
  {
    if i < |oldSlots| {
      OccupiedFrom(oldSlots, i);
      if oldSlots[i].None? {
        assert Reinsert(cfg, t, oldSlots, i, fuel) == Reinsert(cfg, t, oldSlots, i + 1, fuel);
        ReinsertFacts(cfg, t, oldSlots, i + 1, fuel);
      } else {
        var e := oldSlots[i].value;
        PutFacts(cfg, t, e.key, e.value, fuel);
        var (t1, r) := Put(cfg, t, e.key, e.value, fuel);
        if r.Ok? {
          assert Reinsert(cfg, t, oldSlots, i, fuel) == Reinsert(cfg, t1, oldSlots, i + 1, fuel);
          ReinsertFacts(cfg, t1, oldSlots, i + 1, fuel);
        } else {
          assert Reinsert(cfg, t, oldSlots, i, fuel) == (t1, r);
        }
      }
    }
  }

  /** `grow` keeps `size` and re-puts every entry, so a table whose
      `size` counted its entries counts each of them twice afterwards. */
  lemma GrowCountsTwice<K, V>(cfg: Config<K>, t: Table<K, V>, fuel: nat)
    requires t.capacity >= 0 && t.size >= |Occupied(t.slots)|
    requires Grow(cfg, t, fuel).1.Ok?
    ensures var t' := Grow(cfg, t, fuel).0;
      t'.capacity >= 2 * t.capacity && |Occupied(t'.slots)| == |Occupied(t.slots)| &&
      t'.size >= 2 * |Occupied(t'.slots)|
  {
    GrowFacts(cfg, t, fuel);
    var t' := Grow(cfg, t, fuel).0;
    assert |multiset(Occupied(t'.slots))| == |multiset(Occupied(t.slots))|;
  }

  /** `put` grows the table exactly when the load has reached
      `max_density` (and the fuel allows it). */
  lemma PutGrowsIffOver<K, V>(cfg: Config<K>, t: Table<K, V>, k: K, v: V, fuel: nat)
    requires t.capacity > 0
    ensures Put(cfg, t, k, v, fuel).0.capacity > t.capacity <==>
      fuel > 0 && t.size as real >= cfg.maxDensity * t.capacity as real
  {
    if OverCapacity(cfg, t) == Ok(true) && fuel > 0 {
      GrowFacts(cfg, t, fuel - 1);
    }
  }

  /** Without growth, `put` writes the entry into the first empty slot at
      or after the key's natural index and adds one to `size`. */
  lemma PutWithoutGrowth<K, V>(cfg: Config<K>, t: Table<K, V>, k: K, v: V, fuel: nat)
    requires t.capacity > 0
    requires t.size as real < cfg.maxDensity * t.capacity as real
    ensures var (t', r) := Put(cfg, t, k, v, fuel);
      var h := HashIndex(cfg, t, k).value;
      (r.Ok? <==> !Full(t.slots, h, |t.slots|)) &&
      (r.Ok? ==> exists i :: (h <= i < |t.slots| && Full(t.slots, h, i) && t.slots[i].None? &&
                              t' == Table(t.size + 1, t.capacity, t.slots[i := Some(Entry(k, v))]))) &&
      (!r.Ok? ==> t' == t && r == Raised(IndexError))
  {
    var h := HashIndex(cfg, t, k).value;
    var f := FirstEmptyFrom(t.slots, h);
    if f.Ok? {
      var i := f.value;
      assert h <= i < |t.slots| && Full(t.slots, h, i) && t.slots[i].None?;
    }
  }

  /** `put` of a key not yet stored, then `get` of it, yields the value,
      with or without growth on the way. */
  lemma PutThenGet<K, V>(cfg: Config<K>, t: Table<K, V>, k: K, v: V, fuel: nat)
    requires t.capacity >= 0 && Fresh(t.slots, k)
    requires Put(cfg, t, k, v, fuel).1.Ok?
    ensures Get(cfg, Put(cfg, t, k, v, fuel).0, k) == Ok(v)
  {
    PrePutFacts(cfg, t, k, fuel);
    var (t1, r) := PrePut(cfg, t, k, fuel);
    var i := r.value;
    var h := HashIndex(cfg, t1, k).value;
    var t' := Put(cfg, t, k, v, fuel).0;
    assert t'.slots == t1.slots[i := Some(Entry(k, v))];
    assert HashIndex(cfg, t', k) == Ok(h);
    forall j | h <= j < i
      ensures 0 <= j < |t'.slots| && t'.slots[j].Some? && t'.slots[j].value.key != k
    {
      OccupiedHas(t1.slots, j);
      assert t1.slots[j].value in multiset(Occupied(t.slots));
    }
    GetAt(cfg, t', k, h, i);
  }

  /** A second `put` of a stored key leaves both entries stored: nothing
      is overwritten. */
  lemma PutKeepsDuplicate<K, V>(cfg: Config<K>, t: Table<K, V>, k: K, v0: V, v: V, fuel: nat)
    requires t.capacity >= 0 && Entry(k, v0) in Occupied(t.slots)
    requires Put(cfg, t, k, v, fuel).1.Ok?
    ensures var t' := Put(cfg, t, k, v, fuel).0;
      Entry(k, v0) in Occupied(t'.slots) && Entry(k, v) in Occupied(t'.slots)
  {
    PutFacts(cfg, t, k, v, fuel);
    var t' := Put(cfg, t, k, v, fuel).0;
    assert Entry(k, v0) in multiset(Occupied(t'.slots));
    assert Entry(k, v) in multiset(Occupied(t'.slots));
  }

  // ---------------------------------------------------------------------
  // The growth factor: every grow, the outer one and those nested in its
  // re-puts, doubles the capacity.

  /** `capacity` after `n` grows of this variant. */
  function Doubled(c: int, n: nat): int {
    if n == 0 then c else 2 * Doubled(c, n - 1)
  }

  lemma {:induction false} DoubledAdd(c: int, a: nat, b: nat)
    ensures Doubled(Doubled(c, a), b) == Doubled(c, a + b)
  {
    if b > 0 {
      DoubledAdd(c, a, b - 1);
    }
  }

  lemma {:induction false} PrePutScales<K, V>(cfg: Config<K>, t: Table<K, V>, k: K, fuel: nat)
    decreases fuel, 1, 0
    ensures exists n: nat :: PrePut(cfg, t, k, fuel).0.capacity == Doubled(t.capacity, n)
  {
    assert Doubled(t.capacity, 0) == t.capacity;
    if OverCapacity(cfg, t) == Ok(true) && fuel > 0 {
      GrowScales(cfg, t, fuel - 1);
    }
  }

  lemma {:induction false} PutScales<K, V>(cfg: Config<K>, t: Table<K, V>, k: K, v: V, fuel: nat)
    decreases fuel, 1, 1
    ensures exists n: nat :: Put(cfg, t, k, v, fuel).0.capacity == Doubled(t.capacity, n)
  {
    PrePutScales(cfg, t, k, fuel);
  }

  /** `grow` multiplies the capacity by a power of two, at least 2: the
      doubling of its own, and one more for each nested grow. */
  lemma {:induction false} GrowScales<K, V>(cfg: Config<K>, t: Table<K, V>, fuel: nat)
    decreases fuel, 3, 0
    ensures exists n: nat :: 1 <= n && Grow(cfg, t, fuel).0.capacity == Doubled(t.capacity, n)
  {
    var c := t.capacity * 2;
    var start := Table(t.size, c, Nones<K, V>(c));
    ReinsertScales(cfg, start, t.slots, 0, fuel);
    var m: nat :| Reinsert(cfg, start, t.slots, 0, fuel).0.capacity == Doubled(c, m);
    assert Doubled(t.capacity, 1) == c;
    DoubledAdd(t.capacity, 1, m);
    assert Grow(cfg, t, fuel).0.capacity == Doubled(t.capacity, 1 + m);
  }

  lemma {:induction false} ReinsertScales<K, V>(cfg: Config<K>, t: Table<K, V>, oldSlots: seq<Slot<K, V>>, i: nat, fuel: nat)
    decreases fuel, 2, |oldSlots| - i
    ensures exists n: nat :: Reinsert(cfg, t, oldSlots, i, fuel).0.capacity == Doubled(t.capacity, n)
  {
    assert Doubled(t.capacity, 0) == t.capacity;
    if i < |oldSlots| {
      if oldSlots[i].None? {
        assert Reinsert(cfg, t, oldSlots, i, fuel) == Reinsert(cfg, t, oldSlots, i + 1, fuel);
        ReinsertScales(cfg, t, oldSlots, i + 1, fuel);
      } else {
        var e := oldSlots[i].value;
        PutScales(cfg, t, e.key, e.value, fuel);
        var (t1, r) := Put(cfg, t, e.key, e.value, fuel);
        var a: nat :| t1.capacity == Doubled(t.capacity, a);
        if r.Ok? {
          assert Reinsert(cfg, t, oldSlots, i, fuel) == Reinsert(cfg, t1, oldSlots, i + 1, fuel);
          ReinsertScales(cfg, t1, oldSlots, i + 1, fuel);
          var b: nat :| Reinsert(cfg, t1, oldSlots, i + 1, fuel).0.capacity == Doubled(t1.capacity, b);
          DoubledAdd(t.capacity, a, b);
          assert Reinsert(cfg, t, oldSlots, i, fuel).0.capacity == Doubled(t.capacity, a + b);
        } else {
          assert Reinsert(cfg, t, oldSlots, i, fuel) == (t1, r);
        }
      }
    }
  }

  /** A re-put loop over empty slots only puts nothing. */
  lemma {:induction false} ReinsertNothing<K, V>(cfg: Config<K>, t: Table<K, V>, oldSlots: seq<Slot<K, V>>, i: nat, fuel: nat)
    requires forall j :: i <= j < |oldSlots| ==> oldSlots[j].None?
    decreases |oldSlots| - i
    ensures Reinsert(cfg, t, oldSlots, i, fuel) == (t, Ok(()))
  {
    if i < |oldSlots| {
      ReinsertNothing(cfg, t, oldSlots, i + 1, fuel);
    }
  }

  /** `grow` of a table with every slot empty is a single doubling: a
      fresh list of `2 * capacity` empty slots and nothing re-put. */
  lemma GrowEmpty<K, V>(cfg: Config<K>, t: Table<K, V>, fuel: nat)
    requires forall j :: 0 <= j < |t.slots| ==> t.slots[j].None?
    ensures Grow(cfg, t, fuel) == (Table(t.size, 2 * t.capacity, Nones(2 * t.capacity)), Ok(()))
  {
    ReinsertNothing(cfg, Table(t.size, 2 * t.capacity, Nones(2 * t.capacity)), t.slots, 0, fuel);
  }

  /** Re-puts that keep the load below the density of the table they go
      into never grow it again. */
  lemma {:induction false} ReinsertBelowDensity<K, V>(cfg: Config<K>, t: Table<K, V>, oldSlots: seq<Slot<K, V>>, i: nat, fuel: nat)
    requires t.capacity > 0 && i <= |oldSlots|
    requires (t.size + |Occupied(oldSlots[i..])|) as real <= cfg.maxDensity * t.capacity as real
    decreases |oldSlots| - i
    ensures Reinsert(cfg, t, oldSlots, i, fuel).0.capacity == t.capacity
  {
    if i < |oldSlots| {
      OccupiedFrom(oldSlots, i);
      if oldSlots[i].None? {
        assert Reinsert(cfg, t, oldSlots, i, fuel) == Reinsert(cfg, t, oldSlots, i + 1, fuel);
        ReinsertBelowDensity(cfg, t, oldSlots, i + 1, fuel);
      } else {
        var e := oldSlots[i].value;
        assert OverCapacity(cfg, t) == Ok(false);
        assert PrePut(cfg, t, e.key, fuel) == (t, FindEmpty(cfg, t, e.key));
        var (t1, r) := Put(cfg, t, e.key, e.value, fuel);
        if r.Ok? {
          assert t1.capacity == t.capacity && t1.size == t.size + 1;
          assert Reinsert(cfg, t, oldSlots, i, fuel) == Reinsert(cfg, t1, oldSlots, i + 1, fuel);
          ReinsertBelowDensity(cfg, t1, oldSlots, i + 1, fuel);
        } else {
          assert Reinsert(cfg, t, oldSlots, i, fuel) == (t1, r);
        }
      }
    }
  }

  /** When the old `size` plus the entries to re-put stays within the
      density of the doubled table, no re-put grows again: `grow` is
      exactly one doubling, whether or not the re-puts all succeed. */
  lemma GrowDoublesOnce<K, V>(cfg: Config<K>, t: Table<K, V>, fuel: nat)
    requires t.capacity > 0
    requires (t.size + |Occupied(t.slots)|) as real <= cfg.maxDensity * (2 * t.capacity) as real
    ensures Grow(cfg, t, fuel).0.capacity == 2 * t.capacity
  {
    assert t.slots[0..] == t.slots;
    ReinsertBelowDensity(cfg, Table(t.size, 2 * t.capacity, Nones(2 * t.capacity)), t.slots, 0, fuel);
  }

  // ---------------------------------------------------------------------
  // Retrieval: `put` keeps every entry reachable from its natural index,
  // and `grow` makes every entry reachable, so `get` finds each stored
  // key until a `delete` shifts the list.

  lemma {:induction false} PrePutReach<K, V>(cfg: Config<K>, t: Table<K, V>, k: K, fuel: nat)
    requires t.capacity >= 0 && Reachable(cfg, t)
    decreases fuel, 1, 0
    ensures var (t1, r) := PrePut(cfg, t, k, fuel); r.Ok? ==> Reachable(cfg, t1)
  {
    if OverCapacity(cfg, t) == Ok(true) && fuel > 0 {
      GrowReach(cfg, t, fuel - 1);
    }
  }

  lemma {:induction false} PutReach<K, V>(cfg: Config<K>, t: Table<K, V>, k: K, v: V, fuel: nat)
    requires t.capacity >= 0 && Reachable(cfg, t)
    decreases fuel, 1, 1
    ensures var (t', r) := Put(cfg, t, k, v, fuel); r.Ok? ==> Reachable(cfg, t')
  {
    PrePutReach(cfg, t, k, fuel);
    PrePutFacts(cfg, t, k, fuel);
    var (t1, r) := PrePut(cfg, t, k, fuel);
    if r.Ok? {
      ReachableWrite(cfg, t1, r.value, Entry(k, v), HashIndex(cfg, t1, k).value, t1.size + 1);
    }
  }

  /** Whatever the old table, the one `grow` rebuilds has every entry
      reachable. */
  lemma {:induction false} GrowReach<K, V>(cfg: Config<K>, t: Table<K, V>, fuel: nat)
    requires t.capacity >= 0
    decreases fuel, 3, 0
    ensures var (t', r) := Grow(cfg, t, fuel); r.Ok? ==> Reachable(cfg, t')
  {
    var c := t.capacity * 2;
    NonesReachable<K, V>(cfg, t.size, c);
    ReinsertReach(cfg, Table(t.size, c, Nones(c)), t.slots, 0, fuel);
  }

  lemma {:induction false} ReinsertReach<K, V>(cfg: Config<K>, t: Table<K, V>, oldSlots: seq<Slot<K, V>>, i: nat, fuel: nat)
    requires t.capacity >= 0 && Reachable(cfg, t)
    decreases fuel, 2, |oldSlots| - i
    ensures var (t', r) := Reinsert(cfg, t, oldSlots, i, fuel); r.Ok? ==> Reachable(cfg, t')
  {
    if i < |oldSlots| {
      if oldSlots[i].None? {
        assert Reinsert(cfg, t, oldSlots, i, fuel) == Reinsert(cfg, t, oldSlots, i + 1, fuel);
        ReinsertReach(cfg, t, oldSlots, i + 1, fuel);
      } else {
        var e := oldSlots[i].value;
        PutReach(cfg, t, e.key, e.value, fuel);
        PutFacts(cfg, t, e.key, e.value, fuel);
        var (t1, r) := Put(cfg, t, e.key, e.value, fuel);
        if r.Ok? {
          assert Reinsert(cfg, t, oldSlots, i, fuel) == Reinsert(cfg, t1, oldSlots, i + 1, fuel);
          ReinsertReach(cfg, t1, oldSlots, i + 1, fuel);
        } else {
          assert Reinsert(cfg, t, oldSlots, i, fuel) == (t1, r);
        }
      }
    }
  }

  /** A normal `put` keeps the table reachable, maps its key (when that
      key was not stored before), and keeps every other key's mapping
      and freshness. */
  lemma PutKeepsMappings<K, V>(cfg: Config<K>, t: Table<K, V>, k: K, v: V, fuel: nat)
    requires t.capacity >= 0 && Reachable(cfg, t)
    requires Put(cfg, t, k, v, fuel).1.Ok?
    ensures var t' := Put(cfg, t, k, v, fuel).0;
      Reachable(cfg, t') && t'.capacity >= 0 &&
      (Fresh(t.slots, k) ==> MapsTo(t'.slots, k, v)) &&
      (forall k2, v2 :: k2 != k && MapsTo(t.slots, k2, v2) ==> MapsTo(t'.slots, k2, v2)) &&
      (forall k2 :: k2 != k && Fresh(t.slots, k2) ==> Fresh(t'.slots, k2))
  {
    PutReach(cfg, t, k, v, fuel);
    PutFacts(cfg, t, k, v, fuel);
    var t' := Put(cfg, t, k, v, fuel).0;
    if Fresh(t.slots, k) {
      MapsToFresh(t.slots, t'.slots, k, v);
    }
    forall k2, v2 | k2 != k && MapsTo(t.slots, k2, v2)
      ensures MapsTo(t'.slots, k2, v2)
    {
      MapsToAdd(t.slots, t'.slots, Entry(k, v), k2, v2);
    }
    forall k2 | k2 != k && Fresh(t.slots, k2)
      ensures Fresh(t'.slots, k2)
    {
      FreshAdd(t.slots, t'.slots, Entry(k, v), k2);
    }
  }

  /** `grow` keeps every key retrievable, whatever the old table: it
      rebuilds a reachable table with the same entries. */
  lemma GrowKeepsGet<K, V>(cfg: Config<K>, t: Table<K, V>, k: K, v: V, fuel: nat)
    requires t.capacity >= 0 && MapsTo(t.slots, k, v)
    requires Grow(cfg, t, fuel).1.Ok?
    ensures Get(cfg, Grow(cfg, t, fuel).0, k) == Ok(v)
  {
    GrowFacts(cfg, t, fuel);
    GrowReach(cfg, t, fuel);
    var t' := Grow(cfg, t, fuel).0;
    SameEntries(t.slots, t'.slots, k, v);
    GetMapsTo(cfg, t', k, v);
  }

  /** `put` of each entry of `es` in turn, stopping at the first that
      does not return normally. */
  function PutAll<K(==), V>(cfg: Config<K>, t: Table<K, V>, es: seq<Entry<K, V>>, fuel: nat): (Table<K, V>, Result<()>)
    decreases |es|
  {
    if es == [] then (t, Ok(()))
    else
      var (t1, r) := Put(cfg, t, es[0].key, es[0].value, fuel);
      if r.Ok? then PutAll(cfg, t1, es[1..], fuel) else (t1, r)
  }

  lemma {:induction false} PutAllKeeps<K, V>(cfg: Config<K>, t: Table<K, V>, es: seq<Entry<K, V>>, fuel: nat, k: K, v: V)
    requires t.capacity >= 0 && MapsTo(t.slots, k, v)
    requires forall i :: 0 <= i < |es| ==> es[i].key != k
    requires PutAll(cfg, t, es, fuel).1.Ok?
    decreases |es|
    ensures MapsTo(PutAll(cfg, t, es, fuel).0.slots, k, v)
  {
    if es != [] {
      var e := es[0];
      PutFacts(cfg, t, e.key, e.value, fuel);
      var t1 := Put(cfg, t, e.key, e.value, fuel).0;
      MapsToAdd(t.slots, t1.slots, e, k, v);
      assert forall i :: 0 <= i < |es[1..]| ==> es[1..][i] == es[i + 1];
      PutAllKeeps(cfg, t1, es[1..], fuel, k, v);
    }
  }

  lemma {:induction false} PutAllMaps<K, V>(cfg: Config<K>, t: Table<K, V>, es: seq<Entry<K, V>>, fuel: nat)
    requires t.capacity >= 0 && Reachable(cfg, t) && DistinctKeys(es)
    requires forall i :: 0 <= i < |es| ==> Fresh(t.slots, es[i].key)
    requires PutAll(cfg, t, es, fuel).1.Ok?
    decreases |es|
    ensures var t' := PutAll(cfg, t, es, fuel).0;
      Reachable(cfg, t') && forall i :: 0 <= i < |es| ==> MapsTo(t'.slots, es[i].key, es[i].value)
  {
    if es != [] {
      var e, rest := es[0], es[1..];
      PutKeepsMappings(cfg, t, e.key, e.value, fuel);
      var t1 := Put(cfg, t, e.key, e.value, fuel).0;
      forall i | 0 <= i < |rest|
        ensures rest[i].key != e.key && Fresh(t1.slots, rest[i].key)
      {
        assert rest[i] == es[i + 1];
      }
      PutAllMaps(cfg, t1, rest, fuel);
      PutAllKeeps(cfg, t1, rest, fuel, e.key, e.value);
      var t' := PutAll(cfg, t, es, fuel).0;
      forall i | 0 <= i < |es|
        ensures MapsTo(t'.slots, es[i].key, es[i].value)
      {
        if i > 0 {
          assert es[i] == rest[i - 1];
        }
      }
    }
  }

  /** Puts of distinct keys into a new table, then a `get` of each key,
      return the values put, whatever growth happened on the way. */
  lemma PutAllThenGet<K, V>(cfg: Config<K>, c: int, es: seq<Entry<K, V>>, fuel: nat)
    requires c >= 0 && DistinctKeys(es)
    requires PutAll(cfg, Table(0, c, Nones(c)), es, fuel).1.Ok?
    ensures var t' := PutAll(cfg, Table(0, c, Nones(c)), es, fuel).0;
      forall i :: 0 <= i < |es| ==> Get(cfg, t', es[i].key) == Ok(es[i].value)
  {
    var t := Table(0, c, Nones<K, V>(c));
    NonesReachable<K, V>(cfg, 0, c);
    OccupiedNones<K, V>(c);
    PutAllMaps(cfg, t, es, fuel);
    var t' := PutAll(cfg, t, es, fuel).0;
    forall i | 0 <= i < |es|
      ensures Get(cfg, t', es[i].key) == Ok(es[i].value)
    {
      GetMapsTo(cfg, t', es[i].key, es[i].value);
    }
  }
}
