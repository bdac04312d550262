/** The table of ht.c: an `entries` array of slots, its `capacity` and the count
    `length` of keys set, updated in place by `ht_set`, `ht_expand` and `ht_remove`,
    and the cursor `hti` that `ht_next` advances. Each method is proved to compute
    the function of Probing that specifies it; what those functions mean for lookups
    is proved there. */
module HashTable {
  import opened Fnv
  import opened Probing

  const InitialCapacity: nat := 16

  /** One step of a wrap-around probe: the next index, back to 0 past the end. */
  lemma ProbeNext(h: nat, d: nat, n: nat, index: nat)
    requires h < n && d + 1 <= n && index == Pos(h, d, n)
    ensures (if index + 1 >= n then 0 else index + 1) == Pos(h, d + 1, n)
  {
  }

  /** `ht_set_entry`: probes from the key's home for the key or an empty slot. A found
      key gets the new value; otherwise the key is stored in the empty slot, as a copy
      when `counted` (the call passes `plength`), which can fail (`!dupOk`, `strdup`
      returning NULL) and then changes nothing. `added` says the caller's length is to
      be incremented. */
  method SetEntry<V>(entries: array<Slot<V>>, key: Key, value: V, counted: bool, dupOk: bool)
      returns (stored: Option<Key>, added: bool)
    requires Room(entries[..])
    modifies entries
    ensures var s := old(entries[..]);
      if IsNew(s, key) && counted && !dupOk then
        stored == None && !added && entries[..] == s
      else
        stored == Some(key) && added == (IsNew(s, key) && counted) && entries[..] == Put(s, key, value)
  {
    ghost var s := entries[..];
    var n := entries.Length;
    var h := KeyIndex(key, n);
    StopInRange(s, key, h);
    ghost var stop := Stop(s, key, h, 0);
    var index := h;
    ghost var d := 0;
    while entries[index].Full?
      invariant entries[..] == s
      invariant d <= stop && index == Pos(h, d, n)
      decreases stop - d
    {
      ProbeStep(s, key, h, d);
      if entries[index].key == key {
        entries[index] := Full(key, value);
        return Some(key), false;
      }
      ProbeNext(h, d, n, index);
      index := index + 1;
      if index >= n {
        index := 0;
      }
      d := d + 1;
    }
    ProbeStep(s, key, h, d);
    if counted && !dupOk {
      return None, false;
    }
    entries[index] := Full(key, value);
    return Some(key), counted;
  }

  /** The body of `ht_expand` once the new array is allocated: sets every full slot of
      `entries`, in slot order, into a zeroed array of twice the size. */
  method ReinsertAll<V>(entries: array<Slot<V>>) returns (newEntries: array<Slot<V>>)
    requires IsCapacity(entries.Length) && 2 * entries.Length <= MaxCapacity
    ensures fresh(newEntries) && newEntries[..] == Rehash(entries[..])
  {
    var capacity := entries.Length;
    var newCapacity := 2 * capacity;
    CapacityDoubles(capacity);
    newEntries := new Slot<V>[newCapacity](_ => Empty);
    assert newEntries[..] == Empties(newCapacity);
    SetAll(newEntries, entries[..]);
  }

  /** Sets every full slot of `moved`, in order, into `entries` with `ht_set_entry`,
      without copying keys or counting them, as `ht_expand` does. */
  method SetAll<V>(entries: array<Slot<V>>, moved: seq<Slot<V>>)
    requires IsCapacity(entries.Length) && Count(entries[..]) + CountTo(moved, |moved|) < entries.Length
    modifies entries
    ensures entries[..] == Reinsert(moved, |moved|, old(entries[..]))
  {
    ghost var c := entries[..];
    for i := 0 to |moved|
      invariant Count(c) + CountTo(moved, i) < entries.Length
      invariant entries[..] == Reinsert(moved, i, c)
    {
      CountToMono(moved, i + 1, |moved|);
      ReinsertNext(moved, i, c);
      var entry := moved[i];
      if entry.Full? {
        var _, _ := SetEntry(entries, entry.key, entry.value, false, true);
      }
    }
  }

  /** An `ht`: the slot array, its capacity and the number of keys set. */
  class Table<V> {
    var entries: array<Slot<V>>
    var capacity: nat
    var length: nat

    /** The load invariant: a power-of-two capacity the array matches, no more full
        slots than `length`, and `length` at most half the capacity, so that an empty
        slot always exists and every probe ends. */
    ghost predicate Valid(): (b: bool)
      reads this, entries
      ensures b ==> Room(entries[..])
    {
      entries.Length == capacity && IsCapacity(capacity) && Count(entries[..]) <= length <= capacity / 2
    }

    /** The table `ht_create` returns: 16 empty slots and no keys. */
    constructor ()
      ensures Valid() && fresh(entries)
      ensures capacity == InitialCapacity && length == 0 && entries[..] == Empties(InitialCapacity)
    {
      SixteenIsCapacity();
      capacity := InitialCapacity;
      length := 0;
      entries := new Slot<V>[InitialCapacity](_ => Empty);
      new;
      assert entries[..] == Empties(InitialCapacity);
    }

    /** `ht_create`: NULL when either allocation fails. */
    static method Create(tableOk: bool, entriesOk: bool) returns (t: Table?<V>)
      ensures t == null <==> !(tableOk && entriesOk)
      ensures t != null ==> fresh(t) && t.Valid() && t.length == 0 && t.entries[..] == Empties(InitialCapacity)
    {
      if !tableOk || !entriesOk {
        return null;
      }
      t := new Table();
    }

    /** `ht_length`: the number of keys set, which bounds the full slots. */
    function Length(): (n: nat)
      requires Valid()
      reads this, entries
      ensures Count(entries[..]) <= n <= capacity / 2
    {
      length
    }

    /** `ht_get`: the value of the key's slot on its probe, or NULL at an empty slot. */
    method Get(key: Key) returns (r: Option<V>)
      requires Valid()
      ensures r == Probing.Get(entries[..], key)
    {
      var at := Locate(key);
      if at.Some? {
        return Some(entries[at.value].value);
      }
      return None;
    }

    /** `ht_expand`: a zeroed array of twice the capacity with every full slot set
        into it; refused (false, nothing changed) when the doubled capacity is out of
        range or the allocation fails. */
    method Expand(allocOk: bool) returns (ok: bool)
      requires Valid()
      modifies this
      ensures Valid() && length == old(length)
      ensures ok == (allocOk && 2 * old(capacity) <= MaxCapacity)
      ensures ok ==> capacity == 2 * old(capacity) && fresh(entries)
      ensures ok ==> entries[..] == Rehash(old(entries[..]))
      ensures !ok ==> capacity == old(capacity) && entries == old(entries)
    {
      if 2 * capacity > MaxCapacity || !allocOk {
        return false;
      }
      var newEntries := ReinsertAll(entries);
      var newCapacity := 2 * capacity;
      entries := newEntries;
      capacity := newCapacity;
      return true;
    }

    /** `ht_set`: refuses a NULL value; grows the table when it is half full; then
        overwrites the key's value or adds the key. The stored key is returned, and a
        get of the key then returns the value. */
    method Set(key: Key, value: Option<V>, allocOk: bool, dupOk: bool) returns (r: Option<Key>)
      requires Valid()
      modifies this, entries
      ensures Valid() && (entries == old(entries) || fresh(entries))
      ensures var grow := old(length) >= old(capacity) / 2;
        if value.None? || (grow && !(allocOk && 2 * old(capacity) <= MaxCapacity)) then
          r == None && entries == old(entries) && entries[..] == old(entries[..])
          && capacity == old(capacity) && length == old(length)
        else
          var s := if grow then Rehash(old(entries[..])) else old(entries[..]);
          capacity == |s| && Room(s)
          && if IsNew(s, key) && !dupOk then
               r == None && entries[..] == s && length == old(length)
             else
               r == Some(key) && entries[..] == Put(s, key, value.value)
               && length == old(length) + (if IsNew(s, key) then 1 else 0)
      ensures r.Some? ==> Probing.Get(entries[..], key) == value
      ensures old(Retrievable(entries[..])) ==> Retrievable(entries[..])
      ensures old(Retrievable(entries[..])) ==>
        forall k :: k != key ==> Probing.Get(entries[..], k) == old(Probing.Get(entries[..], k))
    {
      ghost var s0 := entries[..];
      if value.None? {
        return None;
      }
      if length >= capacity / 2 {
        var ok := Expand(allocOk);
        if !ok {
          return None;
        }
        if Retrievable(s0) {
          RehashLookups(s0);
        }
      }
      r := Store(key, value.value, dupOk);
    }

    /** The last step of `ht_set`, once there is room: `ht_set_entry` with the count of
        keys, so that `length` goes up when the key is added. */
    method Store(key: Key, value: V, dupOk: bool) returns (r: Option<Key>)
      requires Valid() && length < capacity / 2
      modifies this, entries
      ensures Valid() && entries == old(entries) && capacity == old(capacity)
      ensures var s := old(entries[..]);
        Room(s)
        && if IsNew(s, key) && !dupOk then
             r == None && entries[..] == s && length == old(length)
           else
             r == Some(key) && entries[..] == Put(s, key, value)
             && length == old(length) + (if IsNew(s, key) then 1 else 0)
      ensures r.Some? ==> Probing.Get(entries[..], key) == Some(value)
      ensures old(Retrievable(entries[..])) ==> Retrievable(entries[..])
      ensures old(Retrievable(entries[..])) ==>
        forall k :: k != key ==> Probing.Get(entries[..], k) == old(Probing.Get(entries[..], k))
    {
      ghost var s := entries[..];
      var added;
      r, added := SetEntry(entries, key, value, true, dupOk);
      if added {
        length := length + 1;
      }
      if r.Some? {
        PutFinds(s, key, value);
        PutCount(s, key, value);
        if Retrievable(s) {
          PutLookups(s, key, value);
        }
      }
    }

    /** `ht_remove`: finds the key as `ht_get` does, empties its slot and decrements
        `length`, then moves the last entry of the run after it whose keys have
        their home in the vacated slot back into that slot. Returns the removed
        value, or NULL when the key is not found. */
    method Remove(key: Key) returns (r: Option<V>)
      requires Valid()
      modifies this, entries
      ensures Valid() && entries == old(entries) && capacity == old(capacity)
      ensures r == Probing.Get(old(entries[..]), key)
      ensures entries[..] == Delete(old(entries[..]), key)
      ensures length == old(length) - (if r.Some? then 1 else 0)
      ensures r.Some? ==> Entries(entries[..]) == Entries(old(entries[..])) - multiset{Full(key, r.value)}
      ensures old(Distinct(entries[..])) ==> Distinct(entries[..]) && Probing.Get(entries[..], key) == None
    {
      ghost var s := entries[..];
      var at := Locate(key);
      if at.Some? {
        var index := at.value;
        r := Some(entries[index].value);
        DeleteFound(s, key);
        entries[index] := Empty;
        length := length - 1;
        CompactRun(index);
      } else {
        r := None;
      }
      if Distinct(s) {
        if r.Some? {
          DeleteDistinct(s, key);
        }
        DeleteTwice(s, key);
      }
    }

    /** The compaction loop of `ht_remove` after slot `index` has been emptied: finds
        the end of the run of entries whose home is `index` and moves its last entry
        into `index`. */
    method CompactRun(index: nat)
      requires entries.Length == capacity && IsCapacity(capacity)
      requires index < capacity && entries[index].Empty?
      modifies entries
      ensures var s := old(entries[..]);
        var r := RunEnd(s, index, 0);
        entries[..] == if r == 0 then s else s[index := s[Pos(index, r, capacity)]][Pos(index, r, capacity) := Empty]
    {
      ghost var s := entries[..];
      var n := capacity;
      ghost var end := RunEnd(s, index, 0);
      var j := index;
      ghost var d := 0;
      while true
        invariant entries[..] == s
        invariant d <= end && j == Pos(index, d, n)
        decreases end - d
      {
        var next := if j + 1 >= n then 0 else j + 1;
        ProbeNext(index, d, n, j);
        var k := entries[next];
        if k.Empty? {
          break;
        }
        var home := KeyIndex(k.key, n);
        if home != index {
          break;
        }
        j := next;
        d := d + 1;
      }
      assert d == end;
      if j == index {
        return;
      }
      entries[index] := entries[j];
      entries[j] := Empty;
    }

    /** Removal as `ht_remove` is meant to work: the key is found and its slot emptied
        as there, then every entry of the cluster after the slot is taken out and set
        again, so that no key is cut off from its home. */
    method RemoveRepaired(key: Key) returns (r: Option<V>)
      requires Valid()
      modifies this, entries
      ensures Valid() && entries == old(entries) && capacity == old(capacity)
      ensures r == Probing.Get(old(entries[..]), key)
      ensures entries[..] == DeleteRepaired(old(entries[..]), key)
      ensures length == old(length) - (if r.Some? then 1 else 0)
      ensures old(Retrievable(entries[..])) ==>
        Retrievable(entries[..]) && Probing.Get(entries[..], key) == None
        && forall k :: k != key ==> Probing.Get(entries[..], k) == old(Probing.Get(entries[..], k))
    {
      ghost var s := entries[..];
      var at := Locate(key);
      if at.Some? {
        var index := at.value;
        r := Some(entries[index].value);
        DeleteRepairedSteps(s, key, index);
        entries[index] := Empty;
        length := length - 1;
        RepairCluster(index);
      } else {
        r := None;
      }
      if Retrievable(s) {
        DeleteRepairedLookups(s, key);
      }
    }

    /** The probe that `ht_get` and `ht_remove` share: from the key's home to the key's
        slot, or to an empty slot when the key is not there. */
    method Locate(key: Key) returns (at: Option<nat>)
      requires Valid()
      ensures at == Find(entries[..], key)
    {
      ghost var s := entries[..];
      var index := KeyIndex(key, capacity);
      ghost var h := index;
      StopInRange(s, key, h);
      ghost var stop := Stop(s, key, h, 0);
      ghost var d := 0;
      while entries[index].Full?
        invariant d <= stop && index == Pos(h, d, capacity)
        decreases stop - d
      {
        ProbeStep(s, key, h, d);
        if entries[index].key == key {
          return Some(index);
        }
        ProbeNext(h, d, capacity, index);
        index := index + 1;
        if index >= capacity {
          index := 0;
        }
        d := d + 1;
      }
      ProbeStep(s, key, h, d);
      return None;
    }

    /** The repair after slot `index` has been emptied: the entries of the cluster that
        follows it are taken out, in probe order, and then set again in that order. */
    method RepairCluster(index: nat)
      requires entries.Length == capacity && IsCapacity(capacity)
      requires index < capacity && entries[index].Empty?
      requires var s := entries[..];
        var k := ClusterEnd(s, index, 0);
        Count(ClearAfter(s, index, k)) + CountTo(RunAfter(s, index, k), k) < capacity
      modifies entries
      ensures var s := old(entries[..]);
        var k := ClusterEnd(s, index, 0);
        entries[..] == Reinsert(RunAfter(s, index, k), k, ClearAfter(s, index, k))
    {
      var k := ClusterLength(index);
      var moved := TakeCluster(index, k);
      SetAll(entries, moved);
    }

    /** Takes the cluster after the empty slot `index` out of the table: returns its
        entries in probe order and empties their slots. */
    method TakeCluster(index: nat, k: nat) returns (moved: seq<Slot<V>>)
      requires entries.Length == capacity
      requires index < capacity && k < capacity && entries[index].Empty?
      modifies entries
      ensures moved == RunAfter(old(entries[..]), index, k)
      ensures entries[..] == ClearAfter(old(entries[..]), index, k)
    {
      ghost var s := entries[..];
      var n := capacity;
      moved := [];
      var j := index;
      for e := 0 to k
        invariant j == Pos(index, e, n)
        invariant entries[..] == ClearAfter(s, index, e)
        invariant moved == RunAfter(s, index, e)
      {
        ProbeNext(index, e, n, j);
        j := if j + 1 >= n then 0 else j + 1;
        TakeStep(s, index, e, j);
        var entry := TakeSlot(s, index, e, j);
        moved := moved + [entry];
      }
    }

    /** How many full slots follow the empty slot `index` before the next empty one,
        short of the whole table. */
    method ClusterLength(index: nat) returns (k: nat)
      requires entries.Length == capacity && IsCapacity(capacity)
      requires index < capacity && entries[index].Empty?
      ensures k == ClusterEnd(entries[..], index, 0)
    {
      ghost var s := entries[..];
      var n := capacity;
      k := 0;
      var j := if index + 1 >= n then 0 else index + 1;
      while k + 1 < n && entries[j].Full?
        invariant k < n && j == Pos(index, k + 1, n)
        invariant ClusterEnd(s, index, k) == ClusterEnd(s, index, 0)
        decreases n - k
      {
        ClusterGoesOn(s, index, k);
        ProbeNext(index, k + 1, n, j);
        j := if j + 1 >= n then 0 else j + 1;
        k := k + 1;
      }
      ClusterStops(s, index, k);
    }

    /** One step of TakeCluster: empties slot `j`, the slot `k + 1` steps past
        `index`, and returns what it held. */
    method TakeSlot(ghost s: seq<Slot<V>>, index: nat, k: nat, j: nat) returns (entry: Slot<V>)
      requires entries.Length == capacity && |s| == capacity
      requires index < capacity && k + 1 < capacity && s[index].Empty?
      requires j == Pos(index, k + 1, capacity) && entries[..] == ClearAfter(s, index, k)
      modifies entries
      ensures entry == s[j] && entries[..] == ClearAfter(s, index, k + 1)
    {
      TakeStep(s, index, k, j);
      entry := entries[j];
      entries[j] := Empty;
    }
  }

  /** An `hti`: the table it walks, the next slot to look at, and the last entry it
      yielded (none before the first). */
  class Iterator<V> {
    const table: Table<V>
    var index: nat
    var key: Key
    var value: Option<V>

    /** The full slots `ht_next` has yet to yield, in order. */
    ghost function Remaining(): seq<nat>
      reads this, table, table.entries
    {
      FullFrom(table.entries[..], index)
    }

    /** `ht_iterator`: a cursor at slot 0 with every full slot still to come. */
    constructor (t: Table<V>)
      requires t.Valid()
      ensures table == t && index == 0
      ensures Remaining() == FullFrom(t.entries[..], 0)
    {
      table := t;
      index := 0;
      key := [];
      value := None;
    }

    /** `ht_next`: yields the first full slot from `index` on and moves past it, or
        returns false with `index` at the capacity. The table is not changed. */
    method Next() returns (found: bool)
      requires table.Valid() && index <= table.capacity
      modifies this
      ensures index <= table.capacity
      ensures old(index) < table.capacity ==> index > old(index)
      ensures found == (|old(Remaining())| > 0)
      ensures found ==> var p := old(Remaining())[0];
        index == p + 1 && key == table.entries[p].key && value == Some(table.entries[p].value)
        && Remaining() == old(Remaining())[1..]
      ensures !found ==> index == table.capacity && key == old(key) && value == old(value)
    {
      ghost var s := table.entries[..];
      ghost var start := index;
      while index < table.capacity
        invariant start <= index <= table.capacity
        invariant key == old(key) && value == old(value)
        invariant forall p :: start <= p < index ==> s[p].Empty?
        decreases table.capacity - index
      {
        var i := index;
        index := index + 1;
        if table.entries[i].Full? {
          FullFromSkip(s, start, i);
          key := table.entries[i].key;
          value := Some(table.entries[i].value);
          return true;
        }
      }
      FullFromSkip(s, start, index);
      return false;
    }
  }
}
