/** The bounded-miss table of hashtable_smart_collisions.py as functions
    of a `Table` value. It differs from the baseline in three places: the
    constructor checks the density, `grow` goes to `2 * capacity + 1`, and
    `_find_empty` grows the table as soon as one insertion has missed more
    than `MaxMissCount` times, then probes again from the key's new
    natural index. `fuel` bounds both the nesting of grows and the number
    of such restarts: with a degenerate hash they need not end. */
module HashtableSmartCollisionsModel {
  import opened Wrappers
  import opened Slots

  const MaxMissCount := 3

  /** `__init__`: the density must lie strictly between 0 and 1. */
  function Init<K, V>(capacity: int, maxDensity: real): (r: Result<Table<K, V>>)
    ensures r.Raised? <==> !(0.0 < maxDensity < 1.0)
    ensures r.Raised? ==> r.error == AssertionError
    ensures r.Ok? ==> r.value.size == 0 && r.value.capacity == capacity && Occupied(r.value.slots) == []
    ensures r.Ok? && capacity >= 0 ==> |r.value.slots| == capacity
  {
    if !(0.0 < maxDensity < 1.0) then Raised(AssertionError)
    else
      OccupiedNones<K, V>(capacity);
      Ok(Table(0, capacity, Nones(capacity)))
  }

  /** The `while candidate is not None` loop of `_find_empty`, at index
      `hk` after `miss` misses. */
  function Probe<K(==), V>(cfg: Config<K>, t: Table<K, V>, k: K, hk: int, miss: int, fuel: nat)
    : (r: (Table<K, V>, Result<int>))
    decreases fuel, 0, |t.slots| - hk
    ensures r.1.Ok? ==> 0 <= r.1.value < |r.0.slots| && r.0.slots[r.1.value].None?
  {
    if !(0 <= hk < |t.slots|) then (t, Raised(IndexError))
    else if t.slots[hk].None? then (t, Ok(hk))
    else if miss + 1 > MaxMissCount then Restart(cfg, t, k, fuel)
    else Probe(cfg, t, k, hk + 1, miss + 1, fuel)
  }

  /** The branch of that loop taken past MaxMissCount misses: grow, reset
      the miss count and probe again from the new natural index. */
  function Restart<K(==), V>(cfg: Config<K>, t: Table<K, V>, k: K, fuel: nat): (r: (Table<K, V>, Result<int>))
    decreases fuel, 0, 0
    ensures r.1.Ok? ==> 0 <= r.1.value < |r.0.slots| && r.0.slots[r.1.value].None?
  {
    if fuel == 0 then (t, OutOfFuel)
    else
      var (t1, g) := Grow(cfg, t, fuel - 1);
      if !g.Ok? then (t1, g.Cast())
      else
        match HashIndex(cfg, t1, k)
        case Ok(h) => Probe(cfg, t1, k, h, 0, fuel - 1)
        case Raised(e) => (t1, Raised(e))
  }

  /** `_find_empty`: probe from the key's natural index with no misses. */
  function FindEmpty<K(==), V>(cfg: Config<K>, t: Table<K, V>, k: K, fuel: nat): (r: (Table<K, V>, Result<int>))
    decreases fuel, 1, 0
    ensures r.1.Ok? ==> 0 <= r.1.value < |r.0.slots| && r.0.slots[r.1.value].None?
  {
    match HashIndex(cfg, t, k)
    case Ok(h) => Probe(cfg, t, k, h, 0, fuel)
    case Raised(e) => (t, Raised(e))
  }

  /** `grow`: capacity `2 * capacity + 1`, `capacity` empty slots, then
      every old occupied slot re-put in slot order; `size` is kept. */
  function Grow<K(==), V>(cfg: Config<K>, t: Table<K, V>, fuel: nat): (Table<K, V>, Result<()>)
    decreases fuel, 3, 0
  {
    var c := t.capacity * 2 + 1;
    Reinsert(cfg, Table(t.size, c, Nones(c)), t.slots, 0, fuel)
  }

  /** The `for entry in old_table` loop of `grow`, from slot `i` on. */
  function Reinsert<K(==), V>(cfg: Config<K>, t: Table<K, V>, oldSlots: seq<Slot<K, V>>, i: nat, fuel: nat)
    : (Table<K, V>, Result<()>)
    decreases fuel, 2, |oldSlots| - i
  {
    if i >= |oldSlots| then (t, Ok(()))
    else if oldSlots[i].None? then Reinsert(cfg, t, oldSlots, i + 1, fuel)
    else
      var (t1, r) := Put(cfg, t, oldSlots[i].value.key, oldSlots[i].value.value, fuel);
      if r.Ok? then Reinsert(cfg, t1, oldSlots, i + 1, fuel) else (t1, r)
  }

  /** The first half of `put`: grow when over capacity, then find the
      empty slot the entry goes to (which may grow the table again). */
  function PrePut<K(==), V>(cfg: Config<K>, t: Table<K, V>, k: K, fuel: nat): (r: (Table<K, V>, Result<int>))
    decreases fuel, 1, 1
    ensures r.1.Ok? ==> 0 <= r.1.value < |r.0.slots| && r.0.slots[r.1.value].None?
  {
    match OverCapacity(cfg, t)
    case Raised(e) => (t, Raised(e))
    case Ok(over) =>
      if over && fuel == 0 then (t, OutOfFuel)
      else
        var (t1, g) := if over then Grow(cfg, t, fuel - 1) else (t, Ok(()));
        if g.Ok? then FindEmpty(cfg, t1, k, fuel) else (t1, g.Cast())
  }

  /** `put`: store the entry in the slot `PrePut` found, `size += 1`.
      There is no check for an existing entry with the same key. */
  function Put<K(==), V>(cfg: Config<K>, t: Table<K, V>, k: K, v: V, fuel: nat): (Table<K, V>, Result<()>)
    decreases fuel, 1, 2
  {
    var (t1, r) := PrePut(cfg, t, k, fuel);
    if r.Ok? then (Table(t1.size + 1, t1.capacity, t1.slots[r.value := Some(Entry(k, v))]), Ok(()))
    else (t1, r.Cast())
  }

  // ---------------------------------------------------------------------
  // What put, grow and the probe keep: capacity never shrinks, on a
  // normal return the stored entries are exactly the old ones (plus the
  // new one), and the slot an entry is written to lies at most
  // MaxMissCount places past its natural index.

  /** Slot `i` lies at most MaxMissCount places past the natural index of
      `k` in `t`, with only occupied slots in between. */
  ghost predicate Placed<K, V>(cfg: Config<K>, t: Table<K, V>, k: K, i: int) {
    HashIndex(cfg, t, k).Ok? &&
    var h := HashIndex(cfg, t, k).value;
    h <= i <= h + MaxMissCount && Full(t.slots, h, i)
  }

  lemma {:induction false} ProbeFacts<K, V>(cfg: Config<K>, t: Table<K, V>, k: K, hk: int, miss: int, fuel: nat)
    requires t.capacity >= 0
    decreases fuel, 0, |t.slots| - hk
    ensures var (t', r) := Probe(cfg, t, k, hk, miss, fuel);
      t'.capacity >= t.capacity &&
      (r.Ok? ==> multiset(Occupied(t'.slots)) == multiset(Occupied(t.slots)) && t'.size >= t.size)
  {
    if 0 <= hk < |t.slots| && t.slots[hk].Some? {
      if miss + 1 <= MaxMissCount {
        ProbeFacts(cfg, t, k, hk + 1, miss + 1, fuel);
      } else {
        RestartFacts(cfg, t, k, fuel);
      }
    }
  }

  lemma {:induction false} RestartFacts<K, V>(cfg: Config<K>, t: Table<K, V>, k: K, fuel: nat)
    requires t.capacity >= 0
    decreases fuel, 0, 0
    ensures var (t', r) := Restart(cfg, t, k, fuel);
      (fuel > 0 ==> t'.capacity >= 2 * t.capacity + 1) &&
      t'.capacity >= t.capacity &&
      (r.Ok? ==> multiset(Occupied(t'.slots)) == multiset(Occupied(t.slots)) && t'.size >= t.size)
  {
    if fuel > 0 {
      GrowFacts(cfg, t, fuel - 1);
      var (t1, g) := Grow(cfg, t, fuel - 1);
      if g.Ok? {
        var h := HashIndex(cfg, t1, k).value;
        ProbeFacts(cfg, t1, k, h, 0, fuel - 1);
        assert Restart(cfg, t, k, fuel) == Probe(cfg, t1, k, h, 0, fuel - 1);
      } else {
        assert Restart(cfg, t, k, fuel) == (t1, g.Cast());
      }
    }
  }

  lemma {:induction false} FindEmptyFacts<K, V>(cfg: Config<K>, t: Table<K, V>, k: K, fuel: nat)
    requires t.capacity >= 0
    decreases fuel, 1, 0
    ensures var (t', r) := FindEmpty(cfg, t, k, fuel);
      t'.capacity >= t.capacity &&
      (r.Ok? ==> multiset(Occupied(t'.slots)) == multiset(Occupied(t.slots)) && t'.size >= t.size)
  {
    if t.capacity > 0 {
      ProbeFacts(cfg, t, k, HashIndex(cfg, t, k).value, 0, fuel);
    }
  }

  lemma {:induction false} PrePutFacts<K, V>(cfg: Config<K>, t: Table<K, V>, k: K, fuel: nat)
    requires t.capacity >= 0
    decreases fuel, 1, 1
    ensures var (t1, r) := PrePut(cfg, t, k, fuel);
      t1.capacity >= t.capacity &&
      (r.Ok? ==> multiset(Occupied(t1.slots)) == multiset(Occupied(t.slots)) && t1.size >= t.size)
  {
    match OverCapacity(cfg, t)
    case Raised(e) =>
    case Ok(over) =>
      if over && fuel > 0 {
        GrowFacts(cfg, t, fuel - 1);
        var (t1, g) := Grow(cfg, t, fuel - 1);
        if g.Ok? {
          FindEmptyFacts(cfg, t1, k, fuel);
        }
      } else if !over {
        FindEmptyFacts(cfg, t, k, fuel);
      }
  }

  lemma {:induction false} PutFacts<K, V>(cfg: Config<K>, t: Table<K, V>, k: K, v: V, fuel: nat)
    requires t.capacity >= 0
    decreases fuel, 1, 2
    ensures var (t', r) := Put(cfg, t, k, v, fuel);
      t'.capacity >= t.capacity &&
      (r.Ok? ==>
        multiset(Occupied(t'.slots)) == multiset(Occupied(t.slots)) + multiset{Entry(k, v)} &&
        t'.size >= t.size + 1)
  {
    PrePutFacts(cfg, t, k, fuel);
    var (t1, r) := PrePut(cfg, t, k, fuel);
    if r.Ok? {
      OccupiedWrite(t1.slots, r.value, Entry(k, v));
    }
  }

  lemma {:induction false} GrowFacts<K, V>(cfg: Config<K>, t: Table<K, V>, fuel: nat)
    requires t.capacity >= 0
    decreases fuel, 3, 0
    ensures var (t', r) := Grow(cfg, t, fuel);
      t'.capacity >= 2 * t.capacity + 1 &&
      (exists n: nat :: 1 <= n && t'.capacity == Regrown(t.capacity, n)) &&
      (r.Ok? ==>
        multiset(Occupied(t'.slots)) == multiset(Occupied(t.slots)) &&
        t'.size >= t.size + |Occupied(t.slots)|)
  {
    var c := t.capacity * 2 + 1;
    OccupiedNones<K, V>(c);
    ReinsertFacts(cfg, Table(t.size, c, Nones(c)), t.slots, 0, fuel);
    assert t.slots[0..] == t.slots;
    GrowScales(cfg, t, fuel);
  }

  lemma {:induction false} ReinsertFacts<K, V>(cfg: Config<K>, t: Table<K, V>, oldSlots: seq<Slot<K, V>>, i: nat, fuel: nat)
    requires t.capacity >= 0 && i <= |oldSlots|
    decreases fuel, 2, |oldSlots| - i
    ensures var (t', r) := Reinsert(cfg, t, oldSlots, i, fuel);
      t'.capacity >= t.capacity &&
      (r.Ok? ==>
        multiset(Occupied(t'.slots)) == multiset(Occupied(t.slots)) + multiset(Occupied(oldSlots[i..])) &&
        t'.size >= t.size + |Occupied(oldSlots[i..])|)
  {
    if i < |oldSlots| {
      OccupiedFrom(oldSlots, i);
      if oldSlots[i].None? {
        assert Reinsert(cfg, t, oldSlots, i, fuel) == Reinsert(cfg, t, oldSlots, i + 1, fuel);
        ReinsertFacts(cfg, t, oldSlots, i + 1, fuel);
      } else {
        var e := oldSlots[i].value;
        PutFacts(cfg, t, e.key, e.value, fuel);
        var (t1, r) := Put(cfg, t, e.key, e.value, fuel);
        if r.Ok? {
          assert Reinsert(cfg, t, oldSlots, i, fuel) == Reinsert(cfg, t1, oldSlots, i + 1, fuel);
          ReinsertFacts(cfg, t1, oldSlots, i + 1, fuel);
        } else {
          assert Reinsert(cfg, t, oldSlots, i, fuel) == (t1, r);
        }
      }
    }
  }

  /** Where the probe writes: from its natural index `hk - miss`, past
      `miss` occupied slots, at most MaxMissCount places on. */
  lemma {:induction false} ProbePlaced<K, V>(cfg: Config<K>, t: Table<K, V>, k: K, hk: int, miss: int, fuel: nat)
    requires t.capacity >= 0 && 0 <= miss <= MaxMissCount
    requires HashIndex(cfg, t, k) == Ok(hk - miss) && Full(t.slots, hk - miss, hk)
    requires Probe(cfg, t, k, hk, miss, fuel).1.Ok?
    decreases fuel, |t.slots| - hk
    ensures var (t', r) := Probe(cfg, t, k, hk, miss, fuel); Placed(cfg, t', k, r.value)
  {
    if t.slots[hk].Some? {
      if miss + 1 <= MaxMissCount {
        assert Full(t.slots, (hk + 1) - (miss + 1), hk + 1);
        ProbePlaced(cfg, t, k, hk + 1, miss + 1, fuel);
      } else {
        RestartPlaced(cfg, t, k, fuel);
      }
    }
  }

  lemma {:induction false} RestartPlaced<K, V>(cfg: Config<K>, t: Table<K, V>, k: K, fuel: nat)
    requires t.capacity >= 0
    requires Restart(cfg, t, k, fuel).1.Ok?
    decreases fuel, 0
    ensures var (t', r) := Restart(cfg, t, k, fuel); Placed(cfg, t', k, r.value)
  {
    GrowFacts(cfg, t, fuel - 1);
    var (t1, g) := Grow(cfg, t, fuel - 1);
    var h := HashIndex(cfg, t1, k).value;
    assert Full(t1.slots, h - 0, h);
    ProbePlaced(cfg, t1, k, h, 0, fuel - 1);
  }

  lemma PrePutPlaced<K, V>(cfg: Config<K>, t: Table<K, V>, k: K, fuel: nat)
    requires t.capacity >= 0
    requires PrePut(cfg, t, k, fuel).1.Ok?
    ensures var (t1, r) := PrePut(cfg, t, k, fuel); Placed(cfg, t1, k, r.value)
  {
    var over := OverCapacity(cfg, t).value;
    var (t1, g) := if over then Grow(cfg, t, fuel - 1) else (t, Ok(()));
    if over {
      GrowFacts(cfg, t, fuel - 1);
    }
    var h := HashIndex(cfg, t1, k).value;
    assert Full(t1.slots, h - 0, h);
    ProbePlaced(cfg, t1, k, h, 0, fuel);
  }

  /** `grow` keeps `size` and re-puts every entry, so a table whose
      `size` counted its entries counts each of them twice afterwards. */
  lemma GrowCountsTwice<K, V>(cfg: Config<K>, t: Table<K, V>, fuel: nat)
    requires t.capacity >= 0 && t.size >= |Occupied(t.slots)|
    requires Grow(cfg, t, fuel).1.Ok?
    ensures var t' := Grow(cfg, t, fuel).0;
      t'.capacity > t.capacity && |Occupied(t'.slots)| == |Occupied(t.slots)| &&
      t'.size >= 2 * |Occupied(t'.slots)|
  {
    GrowFacts(cfg, t, fuel);
    var t' := Grow(cfg, t, fuel).0;
    assert |multiset(Occupied(t'.slots))| == |multiset(Occupied(t.slots))|;
  }

  // ---------------------------------------------------------------------
  // Properties of the public operations.

  /** A normal `put` writes the entry at most MaxMissCount slots past its
      natural index in the final table, and every slot it passed over is
      occupied. */
  lemma PutWritesNearHome<K, V>(cfg: Config<K>, t: Table<K, V>, k: K, v: V, fuel: nat)
    requires t.capacity >= 0
    requires Put(cfg, t, k, v, fuel).1.Ok?
    ensures var t' := Put(cfg, t, k, v, fuel).0;
      HashIndex(cfg, t', k).Ok? &&
      var h := HashIndex(cfg, t', k).value;
      exists i :: (h <= i <= h + MaxMissCount && Full(t'.slots, h, i) &&
                   0 <= i < |t'.slots| && t'.slots[i] == Some(Entry(k, v)))
  {
    PrePutPlaced(cfg, t, k, fuel);
    var (t1, r) := PrePut(cfg, t, k, fuel);
    var t' := Put(cfg, t, k, v, fuel).0;
    var i := r.value;
    assert t'.slots == t1.slots[i := Some(Entry(k, v))];
    assert HashIndex(cfg, t', k) == HashIndex(cfg, t1, k);
    var h := HashIndex(cfg, t', k).value;
    assert Full(t'.slots, h, i) by {
      forall j | h <= j < i ensures 0 <= j < |t'.slots| && t'.slots[j].Some? {
        FullAt(t1.slots, h, i, j);
      }
    }
  }

  /** When the load is at or above `max_density`, `put` grows the table
      before probing: the capacity becomes at least `2 * capacity + 1`. */
  lemma PutGrowsWhenOver<K, V>(cfg: Config<K>, t: Table<K, V>, k: K, v: V, fuel: nat)
    requires t.capacity > 0 && fuel > 0
    requires t.size as real >= cfg.maxDensity * t.capacity as real
    ensures Put(cfg, t, k, v, fuel).0.capacity >= 2 * t.capacity + 1
  {
    GrowFacts(cfg, t, fuel - 1);
    var (t1, g) := Grow(cfg, t, fuel - 1);
    if g.Ok? {
      FindEmptyFacts(cfg, t1, k, fuel);
    }
  }

  /** The probe walks over occupied slots up to `i`, the first empty one,
      when that lies within MaxMissCount of the natural index. */
  lemma {:induction false} ProbeStops<K, V>(cfg: Config<K>, t: Table<K, V>, k: K, hk: int, miss: int, i: int, fuel: nat)
    requires 0 <= hk <= i < |t.slots| && 0 <= miss && miss + (i - hk) <= MaxMissCount
    requires Full(t.slots, hk, i) && t.slots[i].None?
    decreases i - hk
    ensures Probe(cfg, t, k, hk, miss, fuel) == (t, Ok(i))
  {
    if hk < i {
      ProbeStops(cfg, t, k, hk + 1, miss + 1, i, fuel);
    }
  }

  /** The probe steps over `n` occupied slots while it has misses left. */
  lemma {:induction false} ProbeSkips<K, V>(cfg: Config<K>, t: Table<K, V>, k: K, hk: int, miss: int, n: nat, fuel: nat)
    requires miss + n <= MaxMissCount && Full(t.slots, hk, hk + n)
    decreases n
    ensures Probe(cfg, t, k, hk, miss, fuel) == Probe(cfg, t, k, hk + n, miss + n, fuel)
  {
    if n > 0 {
      FullAt(t.slots, hk, hk + n, hk);
      ProbeSkips(cfg, t, k, hk + 1, miss + 1, n - 1, fuel);
    }
  }

  /** No wraparound: when the slots from the natural index to the end of
      the list are occupied and fewer than MaxMissCount + 1, the probe
      steps past the end and raises IndexError before any growth. */
  lemma ProbeRunsOffEnd<K, V>(cfg: Config<K>, t: Table<K, V>, k: K, fuel: nat)
    requires t.capacity > 0
    requires var h := HashIndex(cfg, t, k).value;
      |t.slots| - h <= MaxMissCount && Full(t.slots, h, |t.slots|)
    ensures FindEmpty(cfg, t, k, fuel) == (t, Raised(IndexError))
  {
    var h := HashIndex(cfg, t, k).value;
    if h <= |t.slots| {
      ProbeSkips(cfg, t, k, h, 0, |t.slots| - h, fuel);
    }
  }

  /** Below `max_density`, and with an empty slot within MaxMissCount of
      the natural index, `put` writes the first such slot without growing
      and adds one to `size`. */
  lemma PutWithoutGrowth<K, V>(cfg: Config<K>, t: Table<K, V>, k: K, v: V, fuel: nat, i: int)
    requires t.capacity > 0
    requires t.size as real < cfg.maxDensity * t.capacity as real
    requires var h := HashIndex(cfg, t, k).value;
      h <= i <= h + MaxMissCount && i < |t.slots| && Full(t.slots, h, i) && t.slots[i].None?
    ensures Put(cfg, t, k, v, fuel) == (Table(t.size + 1, t.capacity, t.slots[i := Some(Entry(k, v))]), Ok(()))
  {
    assert OverCapacity(cfg, t) == Ok(false);
    ProbeStops(cfg, t, k, HashIndex(cfg, t, k).value, 0, i, fuel);
    assert PrePut(cfg, t, k, fuel) == (t, Ok(i));
  }

  /** Four occupied slots from the natural index on make `_find_empty`
      grow the table (unless the fuel is spent) instead of missing a
      fifth time. */
  lemma MissesTriggerGrowth<K, V>(cfg: Config<K>, t: Table<K, V>, k: K, fuel: nat)
    requires t.capacity > 0
    requires var h := HashIndex(cfg, t, k).value; Full(t.slots, h, h + MaxMissCount + 1)
    ensures var (t', r) := FindEmpty(cfg, t, k, fuel);
      r == OutOfFuel || t'.capacity > t.capacity
  {
    var h := HashIndex(cfg, t, k).value;
    FullAt(t.slots, h, h + MaxMissCount + 1, h + 3);
    ProbeSkips(cfg, t, k, h, 0, 3, fuel);
    RestartFacts(cfg, t, k, fuel);
  }

  /** `put` of a key not yet stored, then `get` of it, yields the value,
      whatever growth happened on the way. */
  lemma PutThenGet<K, V>(cfg: Config<K>, t: Table<K, V>, k: K, v: V, fuel: nat)
    requires t.capacity >= 0 && Fresh(t.slots, k)
    requires Put(cfg, t, k, v, fuel).1.Ok?
    ensures Get(cfg, Put(cfg, t, k, v, fuel).0, k) == Ok(v)
  {
    PrePutFacts(cfg, t, k, fuel);
    PrePutPlaced(cfg, t, k, fuel);
    var (t1, r) := PrePut(cfg, t, k, fuel);
    var i := r.value;
    var h := HashIndex(cfg, t1, k).value;
    var t' := Put(cfg, t, k, v, fuel).0;
    assert t'.slots == t1.slots[i := Some(Entry(k, v))];
    assert HashIndex(cfg, t', k) == Ok(h);
    forall j | h <= j < i
      ensures 0 <= j < |t'.slots| && t'.slots[j].Some? && t'.slots[j].value.key != k
    {
      OccupiedHas(t1.slots, j);
      assert t1.slots[j].value in multiset(Occupied(t.slots));
    }
    GetAt(cfg, t', k, h, i);
  }

  /** A second `put` of a stored key leaves both entries stored: nothing
      is overwritten. */
  lemma PutKeepsDuplicate<K, V>(cfg: Config<K>, t: Table<K, V>, k: K, v0: V, v: V, fuel: nat)
    requires t.capacity >= 0 && Entry(k, v0) in Occupied(t.slots)
    requires Put(cfg, t, k, v, fuel).1.Ok?
    ensures var t' := Put(cfg, t, k, v, fuel).0;
      Entry(k, v0) in Occupied(t'.slots) && Entry(k, v) in Occupied(t'.slots)
  {
    PutFacts(cfg, t, k, v, fuel);
    var t' := Put(cfg, t, k, v, fuel).0;
    assert Entry(k, v0) in multiset(Occupied(t'.slots));
    assert Entry(k, v) in multiset(Occupied(t'.slots));
  }

  // ---------------------------------------------------------------------
  // The growth factor: every grow, whether called by `put`, by the probe
  // past MaxMissCount misses or by a re-put nested in another grow, takes
  // the capacity `c` to `2 * c + 1`.

  /** `capacity` after `n` grows of this variant. */
  function Regrown(c: int, n: nat): int {
    if n == 0 then c else 2 * Regrown(c, n - 1) + 1
  }

  lemma {:induction false} RegrownAdd(c: int, a: nat, b: nat)
    ensures Regrown(Regrown(c, a), b) == Regrown(c, a + b)
  {
    if b > 0 {
      RegrownAdd(c, a, b - 1);
    }
  }

  lemma {:induction false} ProbeScales<K, V>(cfg: Config<K>, t: Table<K, V>, k: K, hk: int, miss: int, fuel: nat)
    decreases fuel, 0, |t.slots| - hk
    ensures exists n: nat :: Probe(cfg, t, k, hk, miss, fuel).0.capacity == Regrown(t.capacity, n)
  {
    assert Regrown(t.capacity, 0) == t.capacity;
    if 0 <= hk < |t.slots| && t.slots[hk].Some? {
      if miss + 1 <= MaxMissCount {
        ProbeScales(cfg, t, k, hk + 1, miss + 1, fuel);
      } else {
        RestartScales(cfg, t, k, fuel);
      }
    }
  }

  lemma {:induction false} RestartScales<K, V>(cfg: Config<K>, t: Table<K, V>, k: K, fuel: nat)
    decreases fuel, 0, 0
    ensures exists n: nat :: Restart(cfg, t, k, fuel).0.capacity == Regrown(t.capacity, n)
  {
    assert Regrown(t.capacity, 0) == t.capacity;
    if fuel > 0 {
      GrowScales(cfg, t, fuel - 1);
      var (t1, g) := Grow(cfg, t, fuel - 1);
      var a: nat :| t1.capacity == Regrown(t.capacity, a);
      if g.Ok? && HashIndex(cfg, t1, k).Ok? {
        var h := HashIndex(cfg, t1, k).value;
        ProbeScales(cfg, t1, k, h, 0, fuel - 1);
        var b: nat :| Probe(cfg, t1, k, h, 0, fuel - 1).0.capacity == Regrown(t1.capacity, b);
        RegrownAdd(t.capacity, a, b);
        assert Restart(cfg, t, k, fuel).0.capacity == Regrown(t.capacity, a + b);
      }
    }
  }

  lemma {:induction false} FindEmptyScales<K, V>(cfg: Config<K>, t: Table<K, V>, k: K, fuel: nat)
    decreases fuel, 1, 0
    ensures exists n: nat :: FindEmpty(cfg, t, k, fuel).0.capacity == Regrown(t.capacity, n)
  {
    assert Regrown(t.capacity, 0) == t.capacity;
    if HashIndex(cfg, t, k).Ok? {
      ProbeScales(cfg, t, k, HashIndex(cfg, t, k).value, 0, fuel);
    }
  }

  lemma {:induction false} PrePutScales<K, V>(cfg: Config<K>, t: Table<K, V>, k: K, fuel: nat)
    decreases fuel, 1, 1
    ensures exists n: nat :: PrePut(cfg, t, k, fuel).0.capacity == Regrown(t.capacity, n)
  {
    assert Regrown(t.capacity, 0) == t.capacity;
    match OverCapacity(cfg, t)
    case Raised(e) =>
    case Ok(over) =>
      if over && fuel > 0 {
        GrowScales(cfg, t, fuel - 1);
        var (t1, g) := Grow(cfg, t, fuel - 1);
        var a: nat :| t1.capacity == Regrown(t.capacity, a);
        if g.Ok? {
          FindEmptyScales(cfg, t1, k, fuel);
          var b: nat :| FindEmpty(cfg, t1, k, fuel).0.capacity == Regrown(t1.capacity, b);
          RegrownAdd(t.capacity, a, b);
          assert PrePut(cfg, t, k, fuel).0.capacity == Regrown(t.capacity, a + b);
        }
      } else if !over {
        FindEmptyScales(cfg, t, k, fuel);
      }
  }

  lemma {:induction false} PutScales<K, V>(cfg: Config<K>, t: Table<K, V>, k: K, v: V, fuel: nat)
    decreases fuel, 1, 2
    ensures exists n: nat :: Put(cfg, t, k, v, fuel).0.capacity == Regrown(t.capacity, n)
  {
    PrePutScales(cfg, t, k, fuel);
  }

  /** `grow` applies `c := 2 * c + 1` at least once: its own step, and one
      more for each grow nested in its re-puts. */
  lemma {:induction false} GrowScales<K, V>(cfg: Config<K>, t: Table<K, V>, fuel: nat)
    decreases fuel, 3, 0
    ensures exists n: nat :: 1 <= n && Grow(cfg, t, fuel).0.capacity == Regrown(t.capacity, n)
  {
    var c := t.capacity * 2 + 1;
    var start := Table(t.size, c, Nones<K, V>(c));
    ReinsertScales(cfg, start, t.slots, 0, fuel);
    var m: nat :| Reinsert(cfg, start, t.slots, 0, fuel).0.capacity == Regrown(c, m);
    assert Regrown(t.capacity, 1) == c;
    RegrownAdd(t.capacity, 1, m);
    assert Grow(cfg, t, fuel).0.capacity == Regrown(t.capacity, 1 + m);
  }

  lemma {:induction false} ReinsertScales<K, V>(cfg: Config<K>, t: Table<K, V>, oldSlots: seq<Slot<K, V>>, i: nat, fuel: nat)
    decreases fuel, 2, |oldSlots| - i
    ensures exists n: nat :: Reinsert(cfg, t, oldSlots, i, fuel).0.capacity == Regrown(t.capacity, n)
  {
    assert Regrown(t.capacity, 0) == t.capacity;
    if i < |oldSlots| {
      if oldSlots[i].None? {
        assert Reinsert(cfg, t, oldSlots, i, fuel) == Reinsert(cfg, t, oldSlots, i + 1, fuel);
        ReinsertScales(cfg, t, oldSlots, i + 1, fuel);
      } else {
        var e := oldSlots[i].value;
        PutScales(cfg, t, e.key, e.value, fuel);
        var (t1, r) := Put(cfg, t, e.key, e.value, fuel);
        var a: nat :| t1.capacity == Regrown(t.capacity, a);
        if r.Ok? {
          assert Reinsert(cfg, t, oldSlots, i, fuel) == Reinsert(cfg, t1, oldSlots, i + 1, fuel);
          ReinsertScales(cfg, t1, oldSlots, i + 1, fuel);
          var b: nat :| Reinsert(cfg, t1, oldSlots, i + 1, fuel).0.capacity == Regrown(t1.capacity, b);
          RegrownAdd(t.capacity, a, b);
          assert Reinsert(cfg, t, oldSlots, i, fuel).0.capacity == Regrown(t.capacity, a + b);
        } else {
          assert Reinsert(cfg, t, oldSlots, i, fuel) == (t1, r);
        }
      }
    }
  }

  /** A re-put loop over empty slots only puts nothing. */
  lemma {:induction false} ReinsertNothing<K, V>(cfg: Config<K>, t: Table<K, V>, oldSlots: seq<Slot<K, V>>, i: nat, fuel: nat)
    requires forall j :: i <= j < |oldSlots| ==> oldSlots[j].None?
    decreases |oldSlots| - i
    ensures Reinsert(cfg, t, oldSlots, i, fuel) == (t, Ok(()))
  {
    if i < |oldSlots| {
      ReinsertNothing(cfg, t, oldSlots, i + 1, fuel);
    }
  }

  /** `grow` of a table with every slot empty is a single step: a fresh
      list of `2 * capacity + 1` empty slots and nothing re-put. */
  lemma GrowEmpty<K, V>(cfg: Config<K>, t: Table<K, V>, fuel: nat)
    requires forall j :: 0 <= j < |t.slots| ==> t.slots[j].None?
    ensures Grow(cfg, t, fuel) == (Table(t.size, 2 * t.capacity + 1, Nones(2 * t.capacity + 1)), Ok(()))
  {
    ReinsertNothing(cfg, Table(t.size, 2 * t.capacity + 1, Nones(2 * t.capacity + 1)), t.slots, 0, fuel);
  }

  // ---------------------------------------------------------------------
  // Retrieval: `put` keeps every entry reachable from its natural index,
  // and `grow` makes every entry reachable, so `get` finds each stored
  // key until a `delete` shifts the list.

  lemma {:induction false} ProbeReach<K, V>(cfg: Config<K>, t: Table<K, V>, k: K, hk: int, miss: int, fuel: nat)
    requires t.capacity >= 0 && Reachable(cfg, t)
    decreases fuel, 0, |t.slots| - hk
    ensures var (t', r) := Probe(cfg, t, k, hk, miss, fuel); r.Ok? ==> Reachable(cfg, t')
  {
    if 0 <= hk < |t.slots| && t.slots[hk].Some? {
      if miss + 1 <= MaxMissCount {
        ProbeReach(cfg, t, k, hk + 1, miss + 1, fuel);
      } else {
        RestartReach(cfg, t, k, fuel);
      }
    }
  }

  /** The table the restart branch probes again is rebuilt by `grow`, so
      it is reachable whatever the table before it. */
  lemma {:induction false} RestartReach<K, V>(cfg: Config<K>, t: Table<K, V>, k: K, fuel: nat)
    requires t.capacity >= 0
    decreases fuel, 0, 0
    ensures var (t', r) := Restart(cfg, t, k, fuel); r.Ok? ==> Reachable(cfg, t')
  {
    if fuel > 0 {
      GrowReach(cfg, t, fuel - 1);
      GrowFacts(cfg, t, fuel - 1);
      var (t1, g) := Grow(cfg, t, fuel - 1);
      if g.Ok? {
        ProbeReach(cfg, t1, k, HashIndex(cfg, t1, k).value, 0, fuel - 1);
      }
    }
  }

  lemma {:induction false} FindEmptyReach<K, V>(cfg: Config<K>, t: Table<K, V>, k: K, fuel: nat)
    requires t.capacity >= 0 && Reachable(cfg, t)
    decreases fuel, 1, 0
    ensures var (t', r) := FindEmpty(cfg, t, k, fuel); r.Ok? ==> Reachable(cfg, t')
  {
    if t.capacity > 0 {
      ProbeReach(cfg, t, k, HashIndex(cfg, t, k).value, 0, fuel);
    }
  }

  lemma {:induction false} PrePutReach<K, V>(cfg: Config<K>, t: Table<K, V>, k: K, fuel: nat)
    requires t.capacity >= 0 && Reachable(cfg, t)
    decreases fuel, 1, 1
    ensures var (t1, r) := PrePut(cfg, t, k, fuel); r.Ok? ==> Reachable(cfg, t1)
  {
    match OverCapacity(cfg, t)
    case Raised(e) =>
    case Ok(over) =>
      if over && fuel > 0 {
        GrowReach(cfg, t, fuel - 1);
        GrowFacts(cfg, t, fuel - 1);
        var (t1, g) := Grow(cfg, t, fuel - 1);
        if g.Ok? {
          FindEmptyReach(cfg, t1, k, fuel);
        }
      } else if !over {
        FindEmptyReach(cfg, t, k, fuel);
      }
  }

  lemma {:induction false} PutReach<K, V>(cfg: Config<K>, t: Table<K, V>, k: K, v: V, fuel: nat)
    requires t.capacity >= 0 && Reachable(cfg, t)
    decreases fuel, 1, 2
    ensures var (t', r) := Put(cfg, t, k, v, fuel); r.Ok? ==> Reachable(cfg, t')
  {
    PrePutReach(cfg, t, k, fuel);
    var (t1, r) := PrePut(cfg, t, k, fuel);
    if r.Ok? {
      PrePutPlaced(cfg, t, k, fuel);
      ReachableWrite(cfg, t1, r.value, Entry(k, v), HashIndex(cfg, t1, k).value, t1.size + 1);
    }
  }

  /** Whatever the old table, the one `grow` rebuilds has every entry
      reachable. */
  lemma {:induction false} GrowReach<K, V>(cfg: Config<K>, t: Table<K, V>, fuel: nat)
    requires t.capacity >= 0
    decreases fuel, 3, 0
    ensures var (t', r) := Grow(cfg, t, fuel); r.Ok? ==> Reachable(cfg, t')
  {
    var c := t.capacity * 2 + 1;
    NonesReachable<K, V>(cfg, t.size, c);
    ReinsertReach(cfg, Table(t.size, c, Nones(c)), t.slots, 0, fuel);
  }

  lemma {:induction false} ReinsertReach<K, V>(cfg: Config<K>, t: Table<K, V>, oldSlots: seq<Slot<K, V>>, i: nat, fuel: nat)
    requires t.capacity >= 0 && Reachable(cfg, t)
    decreases fuel, 2, |oldSlots| - i
    ensures var (t', r) := Reinsert(cfg, t, oldSlots, i, fuel); r.Ok? ==> Reachable(cfg, t')
  {
    if i < |oldSlots| {
      if oldSlots[i].None? {
        assert Reinsert(cfg, t, oldSlots, i, fuel) == Reinsert(cfg, t, oldSlots, i + 1, fuel);
        ReinsertReach(cfg, t, oldSlots, i + 1, fuel);
      } else {
        var e := oldSlots[i].value;
        PutReach(cfg, t, e.key, e.value, fuel);
        PutFacts(cfg, t, e.key, e.value, fuel);
        var (t1, r) := Put(cfg, t, e.key, e.value, fuel);
        if r.Ok? {
          assert Reinsert(cfg, t, oldSlots, i, fuel) == Reinsert(cfg, t1, oldSlots, i + 1, fuel);
          ReinsertReach(cfg, t1, oldSlots, i + 1, fuel);
        } else {
          assert Reinsert(cfg, t, oldSlots, i, fuel) == (t1, r);
        }
      }
    }
  }

  /** A normal `put` keeps the table reachable, maps its key (when that
      key was not stored before), and keeps every other key's mapping
      and freshness. */
  lemma PutKeepsMappings<K, V>(cfg: Config<K>, t: Table<K, V>, k: K, v: V, fuel: nat)
    requires t.capacity >= 0 && Reachable(cfg, t)
    requires Put(cfg, t, k, v, fuel).1.Ok?
    ensures var t' := Put(cfg, t, k, v, fuel).0;
      Reachable(cfg, t') && t'.capacity >= 0 &&
      (Fresh(t.slots, k) ==> MapsTo(t'.slots, k, v)) &&
      (forall k2, v2 :: k2 != k && MapsTo(t.slots, k2, v2) ==> MapsTo(t'.slots, k2, v2)) &&
      (forall k2 :: k2 != k && Fresh(t.slots, k2) ==> Fresh(t'.slots, k2))
  {
    PutReach(cfg, t, k, v, fuel);
    PutFacts(cfg, t, k, v, fuel);
    var t' := Put(cfg, t, k, v, fuel).0;
    if Fresh(t.slots, k) {
      MapsToFresh(t.slots, t'.slots, k, v);
    }
    forall k2, v2 | k2 != k && MapsTo(t.slots, k2, v2)
      ensures MapsTo(t'.slots, k2, v2)
    {
      MapsToAdd(t.slots, t'.slots, Entry(k, v), k2, v2);
    }
    forall k2 | k2 != k && Fresh(t.slots, k2)
      ensures Fresh(t'.slots, k2)
    {
      FreshAdd(t.slots, t'.slots, Entry(k, v), k2);
    }
  }

  /** `grow` keeps every key retrievable, whatever the old table: it
      rebuilds a reachable table with the same entries. */
  lemma GrowKeepsGet<K, V>(cfg: Config<K>, t: Table<K, V>, k: K, v: V, fuel: nat)
    requires t.capacity >= 0 && MapsTo(t.slots, k, v)
    requires Grow(cfg, t, fuel).1.Ok?
    ensures Get(cfg, Grow(cfg, t, fuel).0, k) == Ok(v)
  {
    GrowFacts(cfg, t, fuel);
    GrowReach(cfg, t, fuel);
    var t' := Grow(cfg, t, fuel).0;
    SameEntries(t.slots, t'.slots, k, v);
    GetMapsTo(cfg, t', k, v);
  }

  /** `put` of each entry of `es` in turn, stopping at the first that
      does not return normally. */
  function PutAll<K(==), V>(cfg: Config<K>, t: Table<K, V>, es: seq<Entry<K, V>>, fuel: nat): (Table<K, V>, Result<()>)
    decreases |es|
  {
    if es == [] then (t, Ok(()))
    else
      var (t1, r) := Put(cfg, t, es[0].key, es[0].value, fuel);
      if r.Ok? then PutAll(cfg, t1, es[1..], fuel) else (t1, r)
  }

  lemma {:induction false} PutAllKeeps<K, V>(cfg: Config<K>, t: Table<K, V>, es: seq<Entry<K, V>>, fuel: nat, k: K, v: V)
    requires t.capacity >= 0 && MapsTo(t.slots, k, v)
    requires forall i :: 0 <= i < |es| ==> es[i].key != k
    requires PutAll(cfg, t, es, fuel).1.Ok?
    decreases |es|
    ensures MapsTo(PutAll(cfg, t, es, fuel).0.slots, k, v)
  {
    if es != [] {
      var e := es[0];
      PutFacts(cfg, t, e.key, e.value, fuel);
      var t1 := Put(cfg, t, e.key, e.value, fuel).0;
      MapsToAdd(t.slots, t1.slots, e, k, v);
      assert forall i :: 0 <= i < |es[1..]| ==> es[1..][i] == es[i + 1];
      PutAllKeeps(cfg, t1, es[1..], fuel, k, v);
    }
  }

  lemma {:induction false} PutAllMaps<K, V>(cfg: Config<K>, t: Table<K, V>, es: seq<Entry<K, V>>, fuel: nat)
    requires t.capacity >= 0 && Reachable(cfg, t) && DistinctKeys(es)
    requires forall i :: 0 <= i < |es| ==> Fresh(t.slots, es[i].key)
    requires PutAll(cfg, t, es, fuel).1.Ok?
    decreases |es|
    ensures var t' := PutAll(cfg, t, es, fuel).0;
      Reachable(cfg, t') && forall i :: 0 <= i < |es| ==> MapsTo(t'.slots, es[i].key, es[i].value)
  {
    if es != [] {
      var e, rest := es[0], es[1..];
      PutKeepsMappings(cfg, t, e.key, e.value, fuel);
      var t1 := Put(cfg, t, e.key, e.value, fuel).0;
      forall i | 0 <= i < |rest|
        ensures rest[i].key != e.key && Fresh(t1.slots, rest[i].key)
      {
        assert rest[i] == es[i + 1];
      }
      PutAllMaps(cfg, t1, rest, fuel);
      PutAllKeeps(cfg, t1, rest, fuel, e.key, e.value);
      var t' := PutAll(cfg, t, es, fuel).0;
      forall i | 0 <= i < |es|
        ensures MapsTo(t'.slots, es[i].key, es[i].value)
      {
        if i > 0 {
          assert es[i] == rest[i - 1];
        }
      }
    }
  }

  /** Puts of distinct keys into a new table, then a `get` of each key,
      return the values put, whatever growth happened on the way. */
  lemma PutAllThenGet<K, V>(cfg: Config<K>, c: int, es: seq<Entry<K, V>>, fuel: nat)
    requires c >= 0 && DistinctKeys(es)
    requires PutAll(cfg, Table(0, c, Nones(c)), es, fuel).1.Ok?
    ensures var t' := PutAll(cfg, Table(0, c, Nones(c)), es, fuel).0;
      forall i :: 0 <= i < |es| ==> Get(cfg, t', es[i].key) == Ok(es[i].value)
  {
    var t := Table(0, c, Nones<K, V>(c));
    NonesReachable<K, V>(cfg, 0, c);
    OccupiedNones<K, V>(c);
    PutAllMaps(cfg, t, es, fuel);
    var t' := PutAll(cfg, t, es, fuel).0;
    forall i | 0 <= i < |es|
      ensures Get(cfg, t', es[i].key) == Ok(es[i].value)
    {
      GetMapsTo(cfg, t', es[i].key, es[i].value);
    }
  }
}
