/** The open-addressing hash map of ui/id_map.c, from app ids to versions. */
module IdMap {
  import opened Bytes
  import opened Probing
  import opened IdSet

  /** A slot; a value may be NULL. */
  datatype Entry = Entry(key: Option<Key>, value: Option<Key>)

  const EMPTY := Entry(None, None)

  ghost function KeyColumn(entries: seq<Entry>): (r: Slots)
    ensures |r| == |entries| && forall i :: 0 <= i < |entries| ==> r[i] == entries[i].key
  {
    seq(|entries|, i requires 0 <= i < |entries| => entries[i].key)
  }

  /** The entries hold exactly the pairs of m. */
  ghost predicate Represents(entries: seq<Entry>, m: map<Key, Option<Key>>) {
    m.Keys == Keys(KeyColumn(entries))
    && forall i :: 0 <= i < |entries| && entries[i].key.Some? ==>
         entries[i].key.value in m && m[entries[i].key.value] == entries[i].value
  }

  /** Storing a pair in an empty slot where a probe ended. */
  lemma EntryAdded(hash: Key -> nat, entries: seq<Entry>, m: map<Key, Option<Key>>, i: nat, k: Key, v: Option<Key>)
    requires Represents(entries, m) && Reachable(hash, KeyColumn(entries)) && Probed(hash, KeyColumn(entries), k, i)
    requires i < |entries| && entries[i].key.None?
    ensures k !in m
    ensures var entries' := entries[i := Entry(Some(k), v)];
            KeyColumn(entries') == KeyColumn(entries)[i := Some(k)] && Represents(entries', m[k := v])
            && Reachable(hash, KeyColumn(entries'))
            && FullCount(KeyColumn(entries')) == FullCount(KeyColumn(entries)) + 1
  {
    hide Reachable, Probed, FullCount;
    var entries' := entries[i := Entry(Some(k), v)];
    ProbeInserts(hash, KeyColumn(entries), k, i);
    ProbeMisses(hash, KeyColumn(entries), k, i);
    assert KeyColumn(entries') == KeyColumn(entries)[i := Some(k)];
  }

  /** Replacing the value of the slot that holds k. */
  lemma EntryUpdated(hash: Key -> nat, entries: seq<Entry>, m: map<Key, Option<Key>>, i: nat, k: Key, v: Option<Key>)
    requires Represents(entries, m) && i < |entries| && entries[i].key == Some(k)
    requires Reachable(hash, KeyColumn(entries))
    ensures k in m && m[k] == entries[i].value
    ensures var entries' := entries[i := entries[i].(value := v)];
            KeyColumn(entries') == KeyColumn(entries) && Represents(entries', m[k := v])
  {
    var entries' := entries[i := entries[i].(value := v)];
    assert KeyColumn(entries') == KeyColumn(entries);
    ProbeHits(KeyColumn(entries), k, i);
    forall j | 0 <= j < |entries| && entries[j].key == Some(k) ensures j == i {
      assert KeyColumn(entries)[j] == KeyColumn(entries)[i];
    }
  }

  lemma NewEntries(hash: Key -> nat, entries: seq<Entry>)
    requires forall i :: 0 <= i < |entries| ==> entries[i].key == None
    ensures Represents(entries, map[]) && Reachable(hash, KeyColumn(entries)) && FullCount(KeyColumn(entries)) == 0
    ensures Keys(KeyColumn(entries)) == {}
  {
    NewTable(hash, KeyColumn(entries));
  }

  /** The version of the last package with this id that has a version. */
  function LastVersion(list: seq<Option<PackageInfo>>, id: Key): Option<Key> {
    if list == [] then None
    else
      var p := list[|list| - 1];
      if p.Some? && p.value.id == Some(id) && p.value.version.Some? then p.value.version
      else LastVersion(list[..|list| - 1], id)
  }

  /** Package i has this id and a version. */
  predicate HasVersion(list: seq<Option<PackageInfo>>, id: Key, i: int) {
    0 <= i < |list| && list[i].Some? && list[i].value.id == Some(id) && list[i].value.version.Some?
  }

  /** It is the version of a package with this id behind which none with this id has a version, or none has. */
  lemma {:induction false} LastVersionExactly(list: seq<Option<PackageInfo>>, id: Key)
    ensures LastVersion(list, id) == None <==> forall i :: !HasVersion(list, id, i)
    ensures forall i :: HasVersion(list, id, i) && (forall j :: i < j < |list| ==> !HasVersion(list, id, j)) ==>
              LastVersion(list, id) == list[i].value.version
  {
    if list != [] {
      var n := |list| - 1;
      LastVersionExactly(list[..n], id);
      assert forall i :: i != n ==> (HasVersion(list, id, i) <==> HasVersion(list[..n], id, i));
      if HasVersion(list, id, n) {
        assert forall i :: HasVersion(list, id, i) && i != n ==> i < n;
      } else {
        assert LastVersion(list, id) == LastVersion(list[..n], id);
        assert forall i :: HasVersion(list, id, i) ==> list[..n][i] == list[i];
      }
    }
  }

  lemma LastVersionRound(list: seq<Option<PackageInfo>>, i: nat)
    requires i < |list|
    ensures forall id :: LastVersion(list[..i + 1], id) ==
                         var p := list[i];
                         if p.Some? && p.value.id == Some(id) && p.value.version.Some? then p.value.version
                         else LastVersion(list[..i], id)
  {
    assert list[..i + 1][..i] == list[..i];
  }

  lemma NoVersion()
    ensures forall id :: LastVersion([], id) == None
  {
  }

  class IdMap {
    const hash: Key -> nat
    var entries: array?<Entry>
    var capacity: nat
    var count: nat
    /** The map the table stands for. */
    ghost var contents: map<Key, Option<Key>>

    /** id_map_init. */
    constructor (hash: Key -> nat)
      ensures Valid() && contents == map[] && this.hash == hash
    {
      this.hash := hash;
      entries, capacity, count, contents := null, 0, 0, map[];
    }

    ghost predicate Valid()
      reads this, entries
    {
      if entries == null then capacity == 0 && count == 0 && contents == map[]
      else ValidTable(hash, KeyColumn(entries[..]), capacity, count) && Represents(entries[..], contents)
    }

    /** The inner loop of rehash, in a table that does not hold the key of the entry. */
    method Reinsert(table: array<Entry>, entry: Entry, ghost m: map<Key, Option<Key>>)
      requires entry.key.Some? && entry.key.value !in m && Represents(table[..], m)
      requires Reachable(hash, KeyColumn(table[..])) && FullCount(KeyColumn(table[..])) < table.Length
      modifies table
      ensures Reachable(hash, KeyColumn(table[..])) && Represents(table[..], m[entry.key.value := entry.value])
      ensures FullCount(KeyColumn(table[..])) == FullCount(KeyColumn(old(table[..]))) + 1
    {
      var k := entry.key.value;
      ghost var was, slots := table[..], KeyColumn(table[..]);
      assert k !in Keys(slots);
      hide Reachable, Keys, FullCount, Home, OnPath, Distance, Probed, Represents;
      ghost var e := EmptySlot(slots);
      ProbeStarts(hash, slots, k);
      var idx := Home(hash, k, table.Length);
      while table[idx].key.Some?
        invariant 0 <= idx < table.Length && table[..] == was && Probed(hash, slots, k, idx)
        decreases Distance(idx, e, table.Length)
      {
        NotThere(slots, k, idx);
        ProbeStep(hash, slots, k, idx, e);
        idx := Next(idx, table.Length);
      }
      EntryAdded(hash, was, m, idx, k, entry.value);
      table[idx] := entry;
      assert table[..] == was[idx := Entry(Some(k), entry.value)];
    }

    /** rehash: moves all entries into a new table. */
    method Rehash(newCapacity: nat)
      requires Valid() && newCapacity >= FIRST_CAPACITY && LoadOk(count + 1, newCapacity)
      modifies this
      ensures entries != null && fresh(entries) && Valid() && LoadOk(count + 1, capacity)
      ensures capacity == newCapacity && count == old(count) && contents == old(contents)
    {
      hide Reachable, Keys, FullCount;
      var oldEntries := entries;
      var table := new Entry[newCapacity](_ => EMPTY);
      NewEntries(hash, table[..]);
      var moved := 0;
      ghost var m: map<Key, Option<Key>> := map[];
      if oldEntries != null {
        ghost var was, slots := oldEntries[..], KeyColumn(oldEntries[..]);
        NewTable(hash, slots[..0]);
        for i := 0 to oldEntries.Length
          invariant Reachable(hash, KeyColumn(table[..])) && Represents(table[..], m)
          invariant m.Keys == Keys(slots[..i]) && forall k :: k in m ==> k in contents && m[k] == contents[k]
          invariant moved == FullCount(KeyColumn(table[..])) == FullCount(slots[..i])
          invariant Represents(was, contents)
          modifies table
        {
          FullCountPrefix(slots, i);
          KeysPrefix(slots, i);
          FullCountMonotone(slots, i);
          if oldEntries[i].key.Some? {
            OwnKeyIsNew(hash, slots, i);
            Reinsert(table, oldEntries[i], m);
            m := m[oldEntries[i].key.value := oldEntries[i].value];
            moved := moved + 1;
          }
        }
        assert slots[..|slots|] == slots;
        assert m == contents;
      }
      entries, capacity, count := table, newCapacity, moved;
    }

    /** id_map_clear: forgets all entries and keeps the table. */
    method Clear()
      requires Valid()
      modifies this`count, this`contents, entries
      ensures Valid() && contents == map[] && capacity == old(capacity)
    {
      if entries != null {
        for i := 0 to entries.Length
          invariant forall j :: 0 <= j < i ==> entries[j] == EMPTY
        {
          entries[i] := EMPTY;
        }
        NewEntries(hash, entries[..]);
      }
      count := 0;
      contents := map[];
    }

    /** id_map_insert: adds or updates; NULL and the empty string are not keys, NULL is a value. */
    method Insert(key: Option<Key>, value: Option<Key>) returns (ok: bool)
      requires Valid()
      modifies this, entries
      ensures Valid() && (entries == old(entries) || fresh(entries))
      ensures ok <==> key.Some? && key.value != ""
      ensures contents == if ok then old(contents)[key.value := value] else old(contents)
    {
      hide Reachable, Keys, FullCount, Home, OnPath, Distance, Probed, Represents;
      if key.None? || key.value == "" {
        return false;
      }
      if capacity == 0 || (count + 1) * 4 > capacity * 3 {
        Rehash(if capacity == 0 then FIRST_CAPACITY else capacity * 2);
      }
      var k := key.value;
      ghost var was, slots := entries[..], KeyColumn(entries[..]);
      ghost var e := EmptySlot(slots);
      ProbeStarts(hash, slots, k);
      var idx := Home(hash, k, capacity);
      while true
        invariant entries != null && entries[..] == was && (entries == old(entries) || fresh(entries))
        invariant capacity == |slots| && count == FullCount(slots) && LoadOk(count + 1, capacity)
        invariant contents == old(contents) && Represents(was, contents)
        invariant 0 <= idx < capacity && Probed(hash, slots, k, idx)
        decreases Distance(idx, e, capacity)
      {
        if entries[idx].key.None? {
          EntryAdded(hash, was, contents, idx, k, value);
          entries[idx] := Entry(Some(k), value);
          assert entries[..] == was[idx := Entry(Some(k), value)];
          KeysOfRepresented(was, contents, k, value, entries[..]);
          count := count + 1;
          contents := contents[k := value];
          return true;
        }
        if entries[idx].key.value == k {
          EntryUpdated(hash, was, contents, idx, k, value);
          entries[idx] := entries[idx].(value := value);
          assert entries[..] == was[idx := was[idx].(value := value)];
          contents := contents[k := value];
          return true;
        }
        ProbeStep(hash, slots, k, idx, e);
        idx := idx + 1;
        if idx >= capacity {
          idx := 0;
        }
      }
    }

    lemma KeysOfRepresented(was: seq<Entry>, m: map<Key, Option<Key>>, k: Key, v: Option<Key>, entries: seq<Entry>)
      ensures Represents(was, m) && Represents(entries, m[k := v]) ==>
                Keys(KeyColumn(entries)) == Keys(KeyColumn(was)) + {k}
    {
    }

    /** id_map_get: the value stored for the key, or NULL. */
    method Get(key: Option<Key>) returns (value: Option<Key>)
      requires Valid()
      ensures value == if key.Some? && key.value in contents then contents[key.value] else None
    {
      hide Reachable, Keys, FullCount, Home, OnPath, Distance, Probed, Represents;
      if entries == null || key.None? || key.value == "" {
        NoEmptyKey();
        return None;
      }
      var k := key.value;
      ghost var was, slots := entries[..], KeyColumn(entries[..]);
      ghost var e := EmptySlot(slots);
      ProbeStarts(hash, slots, k);
      var idx := Home(hash, k, capacity);
      while true
        invariant 0 <= idx < capacity && entries[..] == was && Probed(hash, slots, k, idx)
        decreases Distance(idx, e, capacity)
      {
        if entries[idx].key.None? {
          EntryAdded(hash, was, contents, idx, k, None);
          return None;
        }
        if entries[idx].key.value == k {
          EntryUpdated(hash, was, contents, idx, k, None);
          return entries[idx].value;
        }
        ProbeStep(hash, slots, k, idx, e);
        idx := idx + 1;
        if idx >= capacity {
          idx := 0;
        }
      }
    }

    lemma NoEmptyKey()
      ensures Valid() ==> "" !in contents
    {
    }

    /** id_map_build_from_packages: afterwards the map gives, for every non-empty id, the version of the
        last package with that id and a version. */
    method BuildFromPackages(list: seq<Option<PackageInfo>>)
      requires Valid()
      modifies this, entries
      ensures Valid() && (entries == old(entries) || fresh(entries))
      ensures forall id :: id in contents <==> id != "" && LastVersion(list, id).Some?
      ensures forall id :: id in contents ==> contents[id] == LastVersion(list, id)
    {
      hide ValidTable, Represents, Valid, LastVersion;
      Clear();
      NoVersion();
      for i := 0 to |list|
        invariant Valid() && (entries == old(entries) || fresh(entries))
        invariant forall id :: id in contents <==> id != "" && LastVersion(list[..i], id).Some?
        invariant forall id :: id in contents ==> contents[id] == LastVersion(list[..i], id)
      {
        LastVersionRound(list, i);
        if list[i].Some? && list[i].value.id.Some? && list[i].value.version.Some? {
          var ok := Insert(list[i].value.id, list[i].value.version);
        }
      }
      assert list[..|list|] == list;
    }
  }
}
