/** The open-addressing hash set of ui/id_set.c: linear probing, doubling growth, and probe loops
    without a bound of their own. */
module IdSet {
  import opened Bytes
  import opened Probing

  /** What the set and the map read of a LinyapsPackageInfo. */
  datatype PackageInfo = PackageInfo(id: Option<Key>, version: Option<Key>)

  /** The scan of the whole list that the set replaced. */
  predicate LinearScan(list: seq<Option<PackageInfo>>, id: Key) {
    list != []
    && ((list[0].Some? && list[0].value.id == Some(id)) || LinearScan(list[1..], id))
  }

  /** It finds an id exactly if some entry of the list that is not NULL has it. */
  lemma {:induction false} LinearScanExactly(list: seq<Option<PackageInfo>>, id: Key)
    ensures LinearScan(list, id) <==> exists i :: 0 <= i < |list| && list[i].Some? && list[i].value.id == Some(id)
  {
    if list != [] {
      LinearScanExactly(list[1..], id);
      if i :| 0 <= i < |list| && list[i].Some? && list[i].value.id == Some(id) {
        assert i > 0 ==> list[1..][i - 1] == list[i];
      }
      if i :| 0 <= i < |list[1..]| && list[1..][i].Some? && list[1..][i].value.id == Some(id) {
        assert list[i + 1] == list[1..][i];
      }
    }
  }

  lemma {:induction false} LinearScanAppend(list: seq<Option<PackageInfo>>, p: Option<PackageInfo>, id: Key)
    ensures LinearScan(list + [p], id) <==> LinearScan(list, id) || (p.Some? && p.value.id == Some(id))
  {
    if list == [] {
      assert (list + [p])[1..] == [];
    } else {
      assert (list + [p])[1..] == list[1..] + [p];
      LinearScanAppend(list[1..], p, id);
    }
  }

  class IdSet {
    const hash: Key -> nat
    var keys: array?<Option<Key>>
    var capacity: nat
    var count: nat

    /** id_set_init. */
    constructor (hash: Key -> nat)
      ensures Valid() && Contents() == {} && this.hash == hash
    {
      this.hash := hash;
      keys, capacity, count := null, 0, 0;
    }

    ghost predicate Valid()
      reads this, keys
    {
      if keys == null then capacity == 0 && count == 0
      else ValidTable(hash, keys[..], capacity, count)
    }

    /** The set the table stands for. */
    ghost function Contents(): set<Key>
      reads this, keys
    {
      if keys == null then {} else Keys(keys[..])
    }

    /** The inner loop of rehash: the first empty slot from the home of k on, in a table without k. */
    method Reinsert(table: array<Option<Key>>, k: Key)
      requires Reachable(hash, table[..]) && FullCount(table[..]) < table.Length && k !in Keys(table[..])
      modifies table
      ensures Reachable(hash, table[..]) && Keys(table[..]) == Keys(old(table[..])) + {k}
      ensures FullCount(table[..]) == FullCount(old(table[..])) + 1
    {
      hide Reachable, Keys, FullCount, Home, OnPath, Distance, Probed;
      ghost var slots := table[..];
      ghost var e := EmptySlot(slots);
      ProbeStarts(hash, slots, k);
      var idx := Home(hash, k, table.Length);
      while table[idx].Some?
        invariant 0 <= idx < table.Length && table[..] == slots && Probed(hash, slots, k, idx)
        decreases Distance(idx, e, table.Length)
      {
        NotThere(slots, k, idx);
        ProbeStep(hash, slots, k, idx, e);
        idx := Next(idx, table.Length);
      }
      ProbeInserts(hash, slots, k, idx);
      table[idx] := Some(k);
      assert table[..] == slots[idx := Some(k)];
    }

    /** rehash: moves all keys into a new table. */
    method Rehash(newCapacity: nat)
      requires Valid() && newCapacity >= FIRST_CAPACITY && LoadOk(count + 1, newCapacity)
      modifies this
      ensures keys != null && fresh(keys) && Valid() && LoadOk(count + 1, capacity)
      ensures capacity == newCapacity && count == old(count) && Contents() == old(Contents())
    {
      hide Reachable, Keys, FullCount;
      var oldKeys := keys;
      var table := new Option<Key>[newCapacity](_ => None);
      NewTable(hash, table[..]);
      NewTable(hash, []);
      var moved := 0;
      if oldKeys != null {
        ghost var slots := oldKeys[..];
        assert slots[..0] == [];
        for i := 0 to oldKeys.Length
          invariant Reachable(hash, table[..]) && Keys(table[..]) == Keys(slots[..i])
          invariant moved == FullCount(table[..]) == FullCount(slots[..i])
          modifies table
        {
          FullCountPrefix(slots, i);
          KeysPrefix(slots, i);
          FullCountMonotone(slots, i);
          if oldKeys[i].Some? {
            OwnKeyIsNew(hash, slots, i);
            Reinsert(table, oldKeys[i].value);
            moved := moved + 1;
          }
        }
        assert slots[..|slots|] == slots;
      }
      keys, capacity, count := table, newCapacity, moved;
    }

    /** id_set_clear: forgets all keys and keeps the table. */
    method Clear()
      requires Valid()
      modifies this`count, keys
      ensures Valid() && Contents() == {} && capacity == old(capacity)
    {
      if keys != null {
        for i := 0 to keys.Length
          invariant forall j :: 0 <= j < i ==> keys[j] == None
        {
          keys[i] := None;
        }
        NewTable(hash, keys[..]);
      }
      count := 0;
    }

    /** id_set_insert: true exactly when the key is new; NULL and the empty string are not keys. */
    method Insert(key: Option<Key>) returns (inserted: bool)
      requires Valid()
      modifies this, keys
      ensures Valid() && (keys == old(keys) || fresh(keys))
      ensures inserted <==> key.Some? && key.value != "" && key.value !in old(Contents())
      ensures Contents() == old(Contents()) + if key.Some? && key.value != "" then {key.value} else {}
    {
      hide Reachable, Keys, FullCount, Home, OnPath, Distance, Probed;
      if key.None? || key.value == "" {
        return false;
      }
      if capacity == 0 || (count + 1) * 4 > capacity * 3 {
        Rehash(if capacity == 0 then FIRST_CAPACITY else capacity * 2);
      }
      ghost var slots := keys[..];
      ghost var e := EmptySlot(slots);
      ProbeStarts(hash, slots, key.value);
      var idx := Home(hash, key.value, capacity);
      while true
        invariant keys != null && keys[..] == slots && (keys == old(keys) || fresh(keys))
        invariant capacity == |slots| && count == FullCount(slots) && LoadOk(count + 1, capacity)
        invariant 0 <= idx < capacity && Probed(hash, slots, key.value, idx)
        decreases Distance(idx, e, capacity)
      {
        if keys[idx].None? {
          ProbeInserts(hash, slots, key.value, idx);
          ProbeMisses(hash, slots, key.value, idx);
          keys[idx] := Some(key.value);
          assert keys[..] == slots[idx := Some(key.value)];
          count := count + 1;
          return true;
        }
        if keys[idx].value == key.value {
          ProbeHits(slots, key.value, idx);
          return false;
        }
        ProbeStep(hash, slots, key.value, idx, e);
        idx := idx + 1;
        if idx >= capacity {
          idx := 0;
        }
      }
    }

    /** id_set_contains. */
    method Contains(key: Option<Key>) returns (found: bool)
      requires Valid()
      ensures found <==> key.Some? && key.value in Contents()
    {
      hide Reachable, Keys, FullCount, Home, OnPath, Distance, Probed;
      if keys == null || key.None? || key.value == "" {
        return false;
      }
      ghost var slots := keys[..];
      ghost var e := EmptySlot(slots);
      ProbeStarts(hash, slots, key.value);
      var idx := Home(hash, key.value, capacity);
      while true
        invariant 0 <= idx < capacity && keys[..] == slots && Probed(hash, slots, key.value, idx)
        decreases Distance(idx, e, capacity)
      {
        if keys[idx].None? {
          ProbeMisses(hash, slots, key.value, idx);
          return false;
        }
        if keys[idx].value == key.value {
          ProbeHits(slots, key.value, idx);
          return true;
        }
        ProbeStep(hash, slots, key.value, idx, e);
        idx := idx + 1;
        if idx >= capacity {
          idx := 0;
        }
      }
    }

    /** id_set_build_from_packages: afterwards a non-empty id is in the set exactly when a scan of the
        list finds it. */
    method BuildFromPackages(list: seq<Option<PackageInfo>>)
      requires Valid()
      modifies this, keys
      ensures Valid() && (keys == old(keys) || fresh(keys))
      ensures forall id :: id in Contents() <==> id != "" && LinearScan(list, id)
    {
      hide ValidTable, Keys;
      Clear();
      for i := 0 to |list|
        invariant Valid() && (keys == old(keys) || fresh(keys))
        invariant forall id :: id in Contents() <==> id != "" && LinearScan(list[..i], id)
      {
        forall id ensures LinearScan(list[..i + 1], id) <==>
                          LinearScan(list[..i], id) || (list[i].Some? && list[i].value.id == Some(id))
        {
          LinearScanAppend(list[..i], list[i], id);
          assert list[..i] + [list[i]] == list[..i + 1];
        }
        if list[i].Some? && list[i].value.id.Some? {
          var inserted := Insert(list[i].value.id);
        }
      }
      assert list[..|list|] == list;
    }
  }
}
