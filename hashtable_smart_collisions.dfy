/** The `HashTable` class of hashtable_smart_collisions.py: the three
    fields the code updates, and one method per operation, each proved to
    leave the state (and return the outcome) that
    HashtableSmartCollisionsModel computes. */
module HashtableSmartCollisions {
  import opened Wrappers
  import opened Slots
  import M = HashtableSmartCollisionsModel

  class HashTable<K(==), V> {
    var size: int
    var capacity: int
    var table: seq<Slot<K, V>>
    const hash: K -> int
    const maxDensity: real

    function Cfg(): Config<K> {
      Config(hash, maxDensity)
    }

    function State(): Table<K, V>
      reads this
    {
      Table(size, capacity, table)
    }

    /** A table of non-positive capacity has no slots, so that every
        index the code computes in it (Python's `%` makes them negative)
        is out of range, as Python's negative indexing of an empty list is. */
    ghost predicate Valid()
      reads this
    {
      (capacity <= 0 ==> table == []) && 0.0 < maxDensity < 1.0
    }

    /** `__init__`, when its density assertion holds. */
    constructor (hash: K -> int, capacity: int, maxDensity: real)
      requires 0.0 < maxDensity < 1.0
      ensures Valid()
      ensures M.Init(capacity, maxDensity) == Ok(State())
      ensures this.hash == hash && this.maxDensity == maxDensity
    {
      this.size := 0;
      this.capacity := capacity;
      this.hash := hash;
      this.maxDensity := maxDensity;
      this.table := Nones(capacity);
    }

    /** `HashTable(capacity, max_density)`: the constructor, or the
        AssertionError its density check raises. */
    static method Create(hash: K -> int, capacity: int := 1000, maxDensity: real := 0.4)
      returns (r: Result<HashTable<K, V>>)
      ensures r.Ok? || r == Raised(AssertionError)
      ensures r.Ok? <==> M.Init<K, V>(capacity, maxDensity).Ok?
      ensures r.Ok? ==>
        fresh(r.value) && r.value.Valid() &&
        M.Init(capacity, maxDensity) == Ok(r.value.State()) &&
        r.value.hash == hash && r.value.maxDensity == maxDensity
    {
      if !(0.0 < maxDensity < 1.0) {
        return Raised(AssertionError);
      }
      var t := new HashTable(hash, capacity, maxDensity);
      return Ok(t);
    }

    /** `_find_empty`: linear probing that grows the table and starts
        over once a single insertion has missed more than MaxMissCount
        times. */
    method FindEmpty(entry: Entry<K, V>, fuel: nat) returns (r: Result<int>)
      requires Valid()
      modifies this
      decreases fuel, 0
      ensures Valid()
      ensures (State(), r) == M.FindEmpty(Cfg(), old(State()), entry.key, fuel)
    {
      var h := HashIndex(Cfg(), State(), entry.key);
      if !h.Ok? {
        return h;
      }
      var hashKey := h.value;
      if !(0 <= hashKey < |table|) {
        return Raised(IndexError);
      }
      var candidate := table[hashKey];
      var missCount := 0;
      var f: nat := fuel;
      while candidate.Some?
        invariant Valid() && f <= fuel
        invariant 0 <= hashKey < |table| && candidate == table[hashKey]
        invariant 0 <= missCount <= M.MaxMissCount
        invariant M.Probe(Cfg(), State(), entry.key, hashKey, missCount, f)
          == M.FindEmpty(Cfg(), old(State()), entry.key, fuel)
        decreases f, |table| - hashKey
      {
        missCount := missCount + 1;
        if missCount > M.MaxMissCount {
          if f == 0 {
            return OutOfFuel;
          }
          ghost var before := State();
          f := f - 1;
          var g := Grow(f);
          if !g.Ok? {
            return g.Cast();
          }
          missCount := 0;
          h := HashIndex(Cfg(), State(), entry.key);
          if !h.Ok? {
            return h;
          }
          hashKey := h.value;
          assert M.Restart(Cfg(), before, entry.key, f + 1) == M.Probe(Cfg(), State(), entry.key, hashKey, 0, f);
          if !(0 <= hashKey < |table|) {
            return Raised(IndexError);
          }
          candidate := table[hashKey];
          continue;
        }
        hashKey := hashKey + 1;
        if hashKey >= |table| {
          return Raised(IndexError);
        }
        candidate := table[hashKey];
      }
      return Ok(hashKey);
    }

    /** `_find_existing`. */
    method FindExisting(key: K) returns (r: Result<Option<int>>)
      ensures r == Slots.FindExisting(Cfg(), State(), key)
    {
      var h := HashIndex(Cfg(), State(), key);
      if !h.Ok? {
        return Raised(h.error);
      }
      var hashKey := h.value;
      if !(0 <= hashKey < |table|) {
        return Raised(IndexError);
      }
      var candidate := table[hashKey];
      while !(candidate.Some? && candidate.value.key == key)
        invariant 0 <= hashKey < |table| && candidate == table[hashKey]
        invariant FirstMatchFrom(table, key, hashKey) == Slots.FindExisting(Cfg(), State(), key)
        decreases |table| - hashKey
      {
        if candidate.None? {
          return Ok(None);
        }
        hashKey := hashKey + 1;
        if hashKey >= |table| {
          return Raised(IndexError);
        }
        candidate := table[hashKey];
      }
      return Ok(Some(hashKey));
    }

    /** `get`. */
    method Get(key: K) returns (r: Result<V>)
      ensures r == Slots.Get(Cfg(), State(), key)
    {
      var found := FindExisting(key);
      match found
      case Ok(Some(j)) => r := Ok(table[j].value.value);
      case Ok(None) => r := Raised(KeyError);
      case Raised(e) => r := Raised(e);
    }

    /** `delete`: `del self.table[i]` shortens the list. */
    method Delete(key: K) returns (r: Result<()>)
      requires Valid()
      modifies this
      ensures Valid()
      ensures (State(), r) == Slots.Delete(Cfg(), old(State()), key)
    {
      var found := FindExisting(key);
      match found
      case Ok(Some(j)) =>
        table := table[..j] + table[j + 1..];
        size := size - 1;
        r := Ok(());
      case Ok(None) => r := Ok(());
      case Raised(e) => r := Raised(e);
    }

    /** `grow`: capacity `2 * capacity + 1`, a fresh list of empty slots,
        then every old entry re-put in slot order. */
    method Grow(fuel: nat) returns (r: Result<()>)
      requires Valid()
      modifies this
      decreases fuel, 2
      ensures Valid()
      ensures (State(), r) == M.Grow(Cfg(), old(State()), fuel)
    {
      capacity := capacity * 2 + 1;
      var oldTable := table;
      table := Nones(capacity);
      var i := 0;
      while i < |oldTable|
        invariant 0 <= i <= |oldTable| && Valid()
        invariant M.Reinsert(Cfg(), State(), oldTable, i, fuel) == M.Grow(Cfg(), old(State()), fuel)
      {
        if oldTable[i].Some? {
          var res := Put(oldTable[i].value.key, oldTable[i].value.value, fuel);
          if !res.Ok? {
            return res;
          }
        }
        i := i + 1;
      }
      return Ok(());
    }

    /** `put`: grow first when over capacity, then write the entry into
        the empty slot `_find_empty` returns and count it. */
    method Put(key: K, value: V, fuel: nat) returns (r: Result<()>)
      requires Valid()
      modifies this
      decreases fuel, 1
      ensures Valid()
      ensures (State(), r) == M.Put(Cfg(), old(State()), key, value, fuel)
    {
      var over := OverCapacity(Cfg(), State());
      if over.Raised? {
        return Raised(over.error);
      }
      if over.value {
        if fuel == 0 {
          return OutOfFuel;
        }
        var g := Grow(fuel - 1);
        if !g.Ok? {
          return g;
        }
      }
      var entry := Entry(key, value);
      var hashKey := FindEmpty(entry, fuel);
      if !hashKey.Ok? {
        return hashKey.Cast();
      }
      table := table[hashKey.value := Some(entry)];
      size := size + 1;
      return Ok(());
    }
  }
}
