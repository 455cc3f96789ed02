/** What the two hash table variants share: the entry record, the
    abstract state (size, capacity, slot list), Python's `%` and list
    bounds, the hash index, the load test, and the lookup-side operations
    (`_find_existing`, `get`, `delete`), which are the same code in both
    files. Every operation is a function of a `Table` value; the classes
    in Hashtable and HashtableSmartCollisions are proved to follow them. */
module Slots {
  import opened Wrappers

  /** `HashTableEntry`: an immutable key-value record. */
  datatype Entry<K, V> = Entry(key: K, value: V)

  type Slot<K, V> = Option<Entry<K, V>>

  /** The three fields the code updates. `slots` is the Python list
      `self.table`; its length is not tied to `capacity`, because
      `delete` removes list elements. */
  datatype Table<K, V> = Table(size: int, capacity: int, slots: seq<Slot<K, V>>)

  /** What the code never changes after construction: Python's built-in
      `hash`, as a total function, and `max_density`, as an exact real. */
  datatype Config<!K> = Config(hash: K -> int, maxDensity: real)

  /** `[None for _ in xrange(c)]`: empty when `c` is not positive. */
  function Nones<K, V>(c: int): (s: seq<Slot<K, V>>)
    ensures |s| == if c < 0 then 0 else c
    ensures forall i :: 0 <= i < |s| ==> s[i].None?
  {
    seq(if c < 0 then 0 else c, _ => None)
  }

  /** Python's `a % b`, which takes the sign of `b`. */
  function PyMod(a: int, b: int): (r: int)
    requires b != 0
    ensures b > 0 ==> 0 <= r < b
    ensures b < 0 ==> b < r <= 0
    ensures exists q :: a == q * b + r
  {
    assert a == (a / b) * b + a % b;
    if b > 0 || a % b == 0 then a % b
    else
      assert a == (a / b - 1) * b + (a % b + b);
      a % b + b
  }

  /** `_hash_fn`: the natural index `hash(key) % capacity`. */
  function HashIndex<K, V>(cfg: Config<K>, t: Table<K, V>, k: K): (r: Result<int>)
    ensures r.Ok? || r == Raised(ZeroDivisionError)
    ensures r.Raised? <==> t.capacity == 0
    ensures t.capacity > 0 ==> r.Ok? && 0 <= r.value < t.capacity
  {
    if t.capacity == 0 then Raised(ZeroDivisionError) else Ok(PyMod(cfg.hash(k), t.capacity))
  }

  /** `_check_capacity`: the load `size / capacity`. */
  function Load<K, V>(t: Table<K, V>): (r: Result<real>)
    ensures r.Raised? <==> t.capacity == 0
    ensures r.Raised? ==> r.error == ZeroDivisionError
    ensures r.Ok? ==> r.value * t.capacity as real == t.size as real
  {
    if t.capacity == 0 then Raised(ZeroDivisionError)
    else Ok(t.size as real / t.capacity as real)
  }

  /** `_over_capacity`: the load has reached `max_density`. */
  function OverCapacity<K, V>(cfg: Config<K>, t: Table<K, V>): (r: Result<bool>)
    ensures r.Raised? <==> t.capacity == 0
    ensures r.Raised? ==> r.error == ZeroDivisionError
    ensures t.capacity > 0 ==>
      r == Ok(t.size as real >= cfg.maxDensity * t.capacity as real)
  {
    match Load(t)
    case Ok(l) =>
      assert t.capacity > 0 ==> (l >= cfg.maxDensity <==> t.size as real >= cfg.maxDensity * t.capacity as real) by {
        if t.capacity > 0 { ScaleByPositive(l, cfg.maxDensity, t.capacity as real); }
      }
      Ok(l >= cfg.maxDensity)
    case Raised(e) => Raised(e)
  }

  lemma ScaleByPositive(x: real, y: real, c: real)
    requires c > 0.0
    ensures x >= y <==> x * c >= y * c
  {
  }

  // ---------------------------------------------------------------------
  // The stored entries, in slot order.

  /** The non-`None` slots of `s`, in order: what `grow` re-inserts. */
  function Occupied<K, V>(s: seq<Slot<K, V>>): (r: seq<Entry<K, V>>)
    ensures |r| <= |s|
  {
    if s == [] then []
    else (if s[0].Some? then [s[0].value] else []) + Occupied(s[1..])
  }

  lemma {:induction false} OccupiedAppend<K, V>(a: seq<Slot<K, V>>, b: seq<Slot<K, V>>)
    ensures Occupied(a + b) == Occupied(a) + Occupied(b)
  {
    if a != [] {
      assert (a + b)[0] == a[0] && (a + b)[1..] == a[1..] + b;
      OccupiedAppend(a[1..], b);
    } else {
      assert a + b == b;
    }
  }

  lemma {:induction false} OccupiedNones<K, V>(c: int)
    ensures Occupied(Nones<K, V>(c)) == []
  {
    var s := Nones<K, V>(c);
    NoneOccupied(s);
  }

  lemma {:induction false} NoneOccupied<K, V>(s: seq<Slot<K, V>>)
    requires forall i :: 0 <= i < |s| ==> s[i].None?
    ensures Occupied(s) == []
  {
    if s != [] {
      NoneOccupied(s[1..]);
    }
  }

  /** Slot `i` followed by the rest: the step `grow`'s loop takes. */
  lemma OccupiedFrom<K, V>(s: seq<Slot<K, V>>, i: int)
    requires 0 <= i < |s|
    ensures Occupied(s[i..]) ==
      (if s[i].Some? then [s[i].value] else []) + Occupied(s[i + 1..])
  {
    assert s[i..][1..] == s[i + 1..];
  }

  lemma OccupiedSplit<K, V>(s: seq<Slot<K, V>>, i: int)
    requires 0 <= i < |s|
    ensures Occupied(s) ==
      Occupied(s[..i]) + (if s[i].Some? then [s[i].value] else []) + Occupied(s[i + 1..])
  {
    var front, back := s[..i], s[i..];
    assert s == front + back;
    OccupiedAppend(front, back);
    assert Occupied(s) == Occupied(front) + Occupied(back);
    OccupiedFrom(s, i);
  }

  /** Writing an entry into an empty slot stores exactly that entry more. */
  lemma OccupiedWrite<K, V>(s: seq<Slot<K, V>>, i: int, e: Entry<K, V>)
    requires 0 <= i < |s| && s[i].None?
    ensures multiset(Occupied(s[i := Some(e)])) == multiset(Occupied(s)) + multiset{e}
  {
    var s' := s[i := Some(e)];
    OccupiedSplit(s, i);
    OccupiedSplit(s', i);
    assert s'[..i] == s[..i] && s'[i + 1..] == s[i + 1..];
  }

  /** `del s[i]` on an occupied slot stores exactly that entry less. */
  lemma OccupiedRemove<K, V>(s: seq<Slot<K, V>>, i: int)
    requires 0 <= i < |s| && s[i].Some?
    ensures multiset(Occupied(s[..i] + s[i + 1..])) == multiset(Occupied(s)) - multiset{s[i].value}
  {
    OccupiedSplit(s, i);
    OccupiedAppend(s[..i], s[i + 1..]);
  }

  /** Every occupied slot's entry is among the stored entries. */
  lemma {:induction false} OccupiedHas<K, V>(s: seq<Slot<K, V>>, i: int)
    requires 0 <= i < |s| && s[i].Some?
    ensures s[i].value in Occupied(s)
  {
    if i > 0 {
      OccupiedHas(s[1..], i - 1);
    }
  }

  /** No stored entry has key `k`. */
  ghost predicate Fresh<K, V>(s: seq<Slot<K, V>>, k: K) {
    forall e :: e in Occupied(s) ==> e.key != k
  }

  /** Every index in `[lo, hi)` is an occupied slot: what a probe for an
      empty slot has stepped over. */
  ghost predicate Full<K, V>(s: seq<Slot<K, V>>, lo: int, hi: int) {
    (lo < hi ==> 0 <= lo && hi <= |s|) &&
    forall j :: lo <= j < hi ==> s[j].Some?
  }

  lemma FullAt<K, V>(s: seq<Slot<K, V>>, lo: int, hi: int, j: int)
    requires Full(s, lo, hi) && lo <= j < hi
    ensures 0 <= j < |s| && s[j].Some?
  {
  }

  // ---------------------------------------------------------------------
  // `_find_existing`, `get`, `delete`: identical in both source files.

  /** Every index in `[lo, hi)` is a slot holding a key other than `k`. */
  ghost predicate Skipped<K, V>(s: seq<Slot<K, V>>, k: K, lo: int, hi: int) {
    (lo < hi ==> 0 <= lo && hi <= |s|) &&
    forall j :: lo <= j < hi ==> s[j].Some? && s[j].value.key != k
  }

  /** The loop of `_find_existing` from index `i`: the first slot at or
      after `i` that is empty (not found) or holds `k` (found), raising
      IndexError when the walk leaves the list first. */
  function FirstMatchFrom<K(==), V>(s: seq<Slot<K, V>>, k: K, i: int): (r: Result<Option<int>>)
    decreases |s| - i
    ensures r.Ok? || r == Raised(IndexError)
    ensures r.Ok? && r.value.Some? ==>
      var j := r.value.value;
      0 <= i <= j < |s| && Skipped(s, k, i, j) && s[j].Some? && s[j].value.key == k
    ensures r == Ok(None) ==>
      0 <= i && exists j :: i <= j < |s| && Skipped(s, k, i, j) && s[j].None?
    ensures r.Raised? <==> i < 0 || Skipped(s, k, i, |s|)
  {
    if !(0 <= i < |s|) then Raised(IndexError)
    else if s[i].Some? && s[i].value.key == k then Ok(Some(i))
    else if s[i].None? then
      assert Skipped(s, k, i, i);
      Ok(None)
    else FirstMatchFrom(s, k, i + 1)
  }

  /** `_find_existing`. */
  function FindExisting<K(==), V>(cfg: Config<K>, t: Table<K, V>, k: K): (r: Result<Option<int>>)
  {
    match HashIndex(cfg, t, k)
    case Ok(h) => FirstMatchFrom(t.slots, k, h)
    case Raised(e) => Raised(e)
  }

  /** `get`: the value stored in the slot `_find_existing` found. */
  function Get<K(==), V>(cfg: Config<K>, t: Table<K, V>, k: K): (r: Result<V>)
    ensures r.Ok? ==> exists j :: 0 <= j < |t.slots| && t.slots[j] == Some(Entry(k, r.value))
  {
    match FindExisting(cfg, t, k)
    case Ok(Some(j)) => Ok(t.slots[j].value.value)
    case Ok(None) => Raised(KeyError)
    case Raised(e) => Raised(e)
  }

  /** `delete`: `del table[i]` at the found index and `size -= 1`, or
      nothing when the key is absent. */
  function Delete<K(==), V>(cfg: Config<K>, t: Table<K, V>, k: K): (r: (Table<K, V>, Result<()>))
    ensures r.0.capacity == t.capacity
  {
    match FindExisting(cfg, t, k)
    case Ok(Some(j)) => (Table(t.size - 1, t.capacity, t.slots[..j] + t.slots[j + 1..]), Ok(()))
    case Ok(None) => (t, Ok(()))
    case Raised(e) => (t, Raised(e))
  }

  /** The walk of `_find_existing` stops at the first slot past the
      skipped ones, whatever lies beyond it. */
  lemma {:induction false} FirstMatchStops<K, V>(s: seq<Slot<K, V>>, k: K, i: int, j: int)
    requires 0 <= i <= j < |s| && Skipped(s, k, i, j)
    requires s[j].None? || s[j].value.key == k
    decreases j - i
    ensures FirstMatchFrom(s, k, i) == if s[j].None? then Ok(None) else Ok(Some(j))
  {
    if i < j {
      FirstMatchStops(s, k, i + 1, j);
    }
  }

  /** `get` finds an entry for `k` that lies past only other keys'
      entries, starting from the natural index. */
  lemma GetAt<K, V>(cfg: Config<K>, t: Table<K, V>, k: K, h: int, j: int)
    requires HashIndex(cfg, t, k) == Ok(h)
    requires 0 <= h <= j < |t.slots| && Skipped(t.slots, k, h, j)
    requires t.slots[j].Some? && t.slots[j].value.key == k
    ensures Get(cfg, t, k) == Ok(t.slots[j].value.value)
  {
    FirstMatchStops(t.slots, k, h, j);
  }

  /** `get` raises KeyError at an empty slot reached past only other
      keys' entries. */
  lemma GetMissing<K, V>(cfg: Config<K>, t: Table<K, V>, k: K, h: int, j: int)
    requires HashIndex(cfg, t, k) == Ok(h)
    requires 0 <= h <= j < |t.slots| && Skipped(t.slots, k, h, j) && t.slots[j].None?
    ensures Get(cfg, t, k) == Raised(KeyError)
  {
    FirstMatchStops(t.slots, k, h, j);
  }

  /** `delete` against `get`: an absent key (KeyError for `get`) leaves
      the table alone; a present one loses exactly the entry `get`
      returns, one list element and one unit of `size`. */
  lemma DeleteMatchesGet<K, V>(cfg: Config<K>, t: Table<K, V>, k: K)
    ensures var (t', r) := Delete(cfg, t, k);
      var g := Get(cfg, t, k);
      (g == Raised(KeyError) ==> t' == t && r == Ok(())) &&
      (g.Raised? && g.error != KeyError ==> t' == t && r == Raised(g.error)) &&
      (g.Ok? ==>
        r == Ok(()) && t'.capacity == t.capacity && t'.size == t.size - 1 &&
        |t'.slots| == |t.slots| - 1 &&
        multiset(Occupied(t'.slots)) == multiset(Occupied(t.slots)) - multiset{Entry(k, g.value)})
  {
    var f := FindExisting(cfg, t, k);
    if f.Ok? && f.value.Some? {
      OccupiedRemove(t.slots, f.value.value);
    }
  }

  /** `del table[j]` at the found index `j`: the slots before `j` stay,
      the later ones move down one place, and `size` drops by one. */
  lemma DeleteShifts<K, V>(cfg: Config<K>, t: Table<K, V>, k: K, j: int)
    requires FindExisting(cfg, t, k) == Ok(Some(j))
    ensures var (t', r) := Delete(cfg, t, k);
      r == Ok(()) && t'.size == t.size - 1 && t'.capacity == t.capacity &&
      |t'.slots| == |t.slots| - 1 &&
      (forall i :: 0 <= i < j ==> t'.slots[i] == t.slots[i]) &&
      (forall i :: j <= i < |t'.slots| ==> t'.slots[i] == t.slots[i + 1])
  {
  }

  // ---------------------------------------------------------------------
  // What makes `get` find what `put` stored: every entry sits at or after
  // its key's natural index with no empty slot in between. `put` and
  // `grow` keep this; `delete`, which shifts later slots down, does not.

  /** The entry in slot `p`, if any, is reached by a probe from its key's
      natural index that passes only occupied slots. */
  ghost predicate AtHome<K, V>(cfg: Config<K>, t: Table<K, V>, p: int)
    requires 0 <= p < |t.slots|
  {
    t.slots[p].Some? ==>
      HashIndex(cfg, t, t.slots[p].value.key).Ok? &&
      var h := HashIndex(cfg, t, t.slots[p].value.key).value;
      h <= p && Full(t.slots, h, p)
  }

  ghost predicate Reachable<K, V>(cfg: Config<K>, t: Table<K, V>) {
    forall p :: 0 <= p < |t.slots| ==> AtHome(cfg, t, p)
  }

  /** `k` is stored with value `v`, and with no other value. */
  ghost predicate MapsTo<K, V>(s: seq<Slot<K, V>>, k: K, v: V) {
    Entry(k, v) in Occupied(s) && forall e :: e in Occupied(s) && e.key == k ==> e.value == v
  }

  /** No two entries of `es` share a key. */
  ghost predicate DistinctKeys<K, V>(es: seq<Entry<K, V>>) {
    forall i, j :: 0 <= i < j < |es| ==> es[i].key != es[j].key
  }

  /** A table of empty slots, as `__init__` and `grow` build it. */
  lemma NonesReachable<K, V>(cfg: Config<K>, n: int, c: int)
    ensures Reachable(cfg, Table(n, c, Nones<K, V>(c)))
  {
  }

  /** Writing an entry into an empty slot that a probe from its natural
      index reaches past occupied slots keeps every entry reachable:
      writing only fills slots, so no other entry's run is broken. */
  lemma ReachableWrite<K, V>(cfg: Config<K>, t: Table<K, V>, i: int, e: Entry<K, V>, h: int, n: int)
    requires Reachable(cfg, t) && 0 <= i < |t.slots| && t.slots[i].None?
    requires HashIndex(cfg, t, e.key) == Ok(h) && h <= i && Full(t.slots, h, i)
    ensures Reachable(cfg, Table(n, t.capacity, t.slots[i := Some(e)]))
  {
    var t' := Table(n, t.capacity, t.slots[i := Some(e)]);
    forall p | 0 <= p < |t'.slots|
      ensures AtHome(cfg, t', p)
    {
      if p != i {
        assert AtHome(cfg, t, p);
      }
    }
  }

  /** Every entry of `Occupied(s)` sits in some slot. */
  lemma {:induction false} OccupiedIndex<K, V>(s: seq<Slot<K, V>>, e: Entry<K, V>)
    requires e in Occupied(s)
    ensures exists p :: 0 <= p < |s| && s[p] == Some(e)
  {
    if s[0] == Some(e) {
      assert 0 < |s|;
    } else {
      OccupiedIndex(s[1..], e);
      var p :| 0 <= p < |s[1..]| && s[1..][p] == Some(e);
      assert s[p + 1] == Some(e);
    }
  }

  /** In a table whose entries are all reachable, `get` returns the one
      value stored under the key. */
  lemma GetMapsTo<K, V>(cfg: Config<K>, t: Table<K, V>, k: K, v: V)
    requires Reachable(cfg, t) && MapsTo(t.slots, k, v)
    ensures Get(cfg, t, k) == Ok(v)
  {
    OccupiedIndex(t.slots, Entry(k, v));
    var p :| 0 <= p < |t.slots| && t.slots[p] == Some(Entry(k, v));
    assert AtHome(cfg, t, p);
    var h := HashIndex(cfg, t, k).value;
    var f := FirstMatchFrom(t.slots, k, h);
    forall j | h <= j < |t.slots| && Skipped(t.slots, k, h, j)
      ensures t.slots[j].Some?
    {
      if j < p {
        FullAt(t.slots, h, p, j);
      }
    }
    assert f.Ok? && f.value.Some?;
    OccupiedHas(t.slots, f.value.value);
  }

  /** Storing one more entry, under another key, keeps a mapping. */
  lemma MapsToAdd<K, V>(s: seq<Slot<K, V>>, s': seq<Slot<K, V>>, e: Entry<K, V>, k: K, v: V)
    requires multiset(Occupied(s')) == multiset(Occupied(s)) + multiset{e}
    requires MapsTo(s, k, v) && e.key != k
    ensures MapsTo(s', k, v)
  {
    var m, m' := multiset(Occupied(s)), multiset(Occupied(s'));
    assert Entry(k, v) in m;
    assert Entry(k, v) in m';
    forall d | d in Occupied(s') && d.key == k
      ensures d.value == v
    {
      assert d in m' && d != e;
      assert d in m;
      assert d in Occupied(s);
    }
  }

  /** Storing an entry under a key stored nowhere else maps it. */
  lemma MapsToFresh<K, V>(s: seq<Slot<K, V>>, s': seq<Slot<K, V>>, k: K, v: V)
    requires multiset(Occupied(s')) == multiset(Occupied(s)) + multiset{Entry(k, v)}
    requires Fresh(s, k)
    ensures MapsTo(s', k, v)
  {
    assert Entry(k, v) in multiset(Occupied(s'));
    forall d | d in Occupied(s') && d.key == k
      ensures d.value == v
    {
      assert d in multiset(Occupied(s'));
    }
  }

  /** Storing one more entry, under another key, keeps a key fresh. */
  lemma FreshAdd<K, V>(s: seq<Slot<K, V>>, s': seq<Slot<K, V>>, e: Entry<K, V>, k: K)
    requires multiset(Occupied(s')) == multiset(Occupied(s)) + multiset{e}
    requires Fresh(s, k) && e.key != k
    ensures Fresh(s', k)
  {
    var m, m' := multiset(Occupied(s)), multiset(Occupied(s'));
    forall d | d in Occupied(s')
      ensures d.key != k
    {
      assert d in m';
      if d != e {
        assert d in m;
        assert d in Occupied(s);
      }
    }
  }

  /** The same entries (as a multiset) keep a mapping and a fresh key. */
  lemma SameEntries<K, V>(s: seq<Slot<K, V>>, s': seq<Slot<K, V>>, k: K, v: V)
    requires multiset(Occupied(s')) == multiset(Occupied(s))
    ensures MapsTo(s, k, v) ==> MapsTo(s', k, v)
    ensures Fresh(s, k) ==> Fresh(s', k)
  {
    forall d | d in Occupied(s')
      ensures d in Occupied(s)
    {
      assert d in multiset(Occupied(s'));
    }
    if MapsTo(s, k, v) {
      assert Entry(k, v) in multiset(Occupied(s));
    }
  }
}
