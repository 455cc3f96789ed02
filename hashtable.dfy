/** The `HashTable` class of hashtable.py: the three fields the code
    updates, and one method per operation, each proved to leave the
    state (and return the outcome) that HashtableModel computes. */
module Hashtable {
  import opened Wrappers
  import opened Slots
  import M = HashtableModel

  class HashTable<K(==), V> {
    var size: int
    var capacity: int
    var table: seq<Slot<K, V>>
    const hash: K -> int
    const maxDensity: real

    function Cfg(): Config<K> {
      Config(hash, maxDensity)
    }

    function State(): Table<K, V>
      reads this
    {
      Table(size, capacity, table)
    }

    /** A table of non-positive capacity has no slots, so that every
        index the code computes in it (Python's `%` makes them negative)
        is out of range, as Python's negative indexing of an empty list is. */
    ghost predicate Valid()
      reads this
    {
      capacity <= 0 ==> table == []
    }

    /** `__init__`; the density is not checked. */
    constructor (hash: K -> int, capacity: int := 1000, maxDensity: real := 0.4)
      ensures Valid()
      ensures State() == Table(0, capacity, Nones(capacity))
      ensures this.hash == hash && this.maxDensity == maxDensity
    {
      this.size := 0;
      this.capacity := capacity;
      this.hash := hash;
      this.maxDensity := maxDensity;
      this.table := Nones(capacity);
    }

    /** `_find_empty`. */
    method FindEmpty(entry: Entry<K, V>) returns (r: Result<int>)
      ensures r == M.FindEmpty(Cfg(), State(), entry.key)
    {
      var h := HashIndex(Cfg(), State(), entry.key);
      if !h.Ok? {
        return h;
      }
      var hashKey := h.value;
      if !(0 <= hashKey < |table|) {
        return Raised(IndexError);
      }
      var candidate := table[hashKey];
      while candidate.Some?
        invariant 0 <= hashKey < |table| && candidate == table[hashKey]
        invariant M.FirstEmptyFrom(table, hashKey) == M.FindEmpty(Cfg(), State(), entry.key)
        decreases |table| - hashKey
      {
        hashKey := hashKey + 1;
        if hashKey >= |table| {
          return Raised(IndexError);
        }
        candidate := table[hashKey];
      }
      return Ok(hashKey);
    }

    /** `_find_existing`. */
    method FindExisting(key: K) returns (r: Result<Option<int>>)
      ensures r == Slots.FindExisting(Cfg(), State(), key)
    {
      var h := HashIndex(Cfg(), State(), key);
      if !h.Ok? {
        return Raised(h.error);
      }
      var hashKey := h.value;
      if !(0 <= hashKey < |table|) {
        return Raised(IndexError);
      }
      var candidate := table[hashKey];
      while !(candidate.Some? && candidate.value.key == key)
        invariant 0 <= hashKey < |table| && candidate == table[hashKey]
        invariant FirstMatchFrom(table, key, hashKey) == Slots.FindExisting(Cfg(), State(), key)
        decreases |table| - hashKey
      {
        if candidate.None? {
          return Ok(None);
        }
        hashKey := hashKey + 1;
        if hashKey >= |table| {
          return Raised(IndexError);
        }
        candidate := table[hashKey];
      }
      return Ok(Some(hashKey));
    }

    /** `get`. */
    method Get(key: K) returns (r: Result<V>)
      ensures r == Slots.Get(Cfg(), State(), key)
    {
      var found := FindExisting(key);
      match found
      case Ok(Some(j)) => r := Ok(table[j].value.value);
      case Ok(None) => r := Raised(KeyError);
      case Raised(e) => r := Raised(e);
    }

    /** `delete`: `del self.table[i]` shortens the list. */
    method Delete(key: K) returns (r: Result<()>)
      requires Valid()
      modifies this
      ensures Valid()
      ensures (State(), r) == Slots.Delete(Cfg(), old(State()), key)
    {
      var found := FindExisting(key);
      match found
      case Ok(Some(j)) =>
        table := table[..j] + table[j + 1..];
        size := size - 1;
        r := Ok(());
      case Ok(None) => r := Ok(());
      case Raised(e) => r := Raised(e);
    }

    /** `grow`: capacity doubled, a fresh list of empty slots, then every
        old entry re-put in slot order. */
    method Grow(fuel: nat) returns (r: Result<()>)
      requires Valid()
      modifies this
      decreases fuel, 2
      ensures Valid()
      ensures (State(), r) == M.Grow(Cfg(), old(State()), fuel)
    {
      capacity := capacity * 2;
      var oldTable := table;
      table := Nones(capacity);
      var i := 0;
      while i < |oldTable|
        invariant 0 <= i <= |oldTable| && Valid()
        invariant M.Reinsert(Cfg(), State(), oldTable, i, fuel) == M.Grow(Cfg(), old(State()), fuel)
      {
        if oldTable[i].Some? {
          var res := Put(oldTable[i].value.key, oldTable[i].value.value, fuel);
          if !res.Ok? {
            return res;
          }
        }
        i := i + 1;
      }
      return Ok(());
    }

    /** `put`: grow first when over capacity, then write the entry into
        the empty slot `_find_empty` returns and count it. */
    method Put(key: K, value: V, fuel: nat) returns (r: Result<()>)
      requires Valid()
      modifies this
      decreases fuel, 1
      ensures Valid()
      ensures (State(), r) == M.Put(Cfg(), old(State()), key, value, fuel)
    {
      var over := OverCapacity(Cfg(), State());
      if over.Raised? {
        return Raised(over.error);
      }
      if over.value {
        if fuel == 0 {
          return OutOfFuel;
        }
        var g := Grow(fuel - 1);
        if !g.Ok? {
          return g;
        }
      }
      var entry := Entry(key, value);
      var hashKey := FindEmpty(entry);
      if !hashKey.Ok? {
        return hashKey.Cast();
      }
      table := table[hashKey.value := Some(entry)];
      size := size + 1;
      return Ok(());
    }
  }
}
