/** Linear probing in a circular table: the invariant shared by the hash set of ui/id_set.c and the
    hash map of ui/id_map.c, stated on the sequence of keys in the slots. */
module Probing {
  import opened Bytes

  type Key = seq<char>
  type Slots = seq<Option<Key>>

  const FIRST_CAPACITY := 16

  /** Going round from `home`, slot j comes before slot i. */
  predicate OnPath(home: nat, j: nat, i: nat) {
    if home <= i then home <= j < i else home <= j || j < i
  }

  function Next(i: nat, n: nat): nat { if i + 1 >= n then 0 else i + 1 }

  function Home(hash: Key -> nat, k: Key, n: nat): (h: nat)
    requires n > 0
    ensures h < n
  {
    hash(k) % n
  }

  /** Steps from slot i round to slot e. */
  function Distance(i: nat, e: nat, n: nat): nat
    requires i < n && e < n
  {
    if i <= e then e - i else e + n - i
  }

  function FullCount(slots: Slots): (c: nat)
    ensures c <= |slots|
  {
    if slots == [] then 0
    else FullCount(slots[..|slots| - 1]) + if slots[|slots| - 1].Some? then 1 else 0
  }

  ghost function Keys(slots: Slots): set<Key> {
    set i | 0 <= i < |slots| && slots[i].Some? :: slots[i].value
  }

  /** Every key is in one slot only, and all slots on the way from its home to that slot are full. */
  ghost predicate Reachable(hash: Key -> nat, slots: Slots) {
    (forall i, j :: 0 <= i < j < |slots| && slots[i].Some? ==> slots[i] != slots[j])
    && forall i, j :: 0 <= i < |slots| && slots[i].Some? && 0 <= j < |slots| ==>
         OnPath(Home(hash, slots[i].value, |slots|), j, i) ==> slots[j].Some?
  }

  /** The load factor of the tables: at most three quarters. */
  predicate LoadOk(count: nat, capacity: nat) { count * 4 <= capacity * 3 }

  lemma {:induction false} FullCountUpdate(slots: Slots, i: nat, k: Key)
    requires i < |slots| && slots[i].None?
    ensures FullCount(slots[i := Some(k)]) == FullCount(slots) + 1
  {
    var n := |slots| - 1;
    if i == n {
      assert slots[i := Some(k)][..n] == slots[..n];
    } else {
      assert slots[i := Some(k)][..n] == slots[..n][i := Some(k)];
      FullCountUpdate(slots[..n], i, k);
    }
  }

  lemma {:induction false} EmptySlot(slots: Slots) returns (e: nat)
    requires FullCount(slots) < |slots|
    ensures e < |slots| && slots[e].None?
  {
    var n := |slots| - 1;
    if slots[n].None? {
      e := n;
    } else {
      e := EmptySlot(slots[..n]);
    }
  }

  lemma {:induction false} FullCountOfEmpty(slots: Slots)
    requires forall i :: 0 <= i < |slots| ==> slots[i].None?
    ensures FullCount(slots) == 0
  {
    if slots != [] {
      FullCountOfEmpty(slots[..|slots| - 1]);
    }
  }

  lemma {:induction false} FullCountPrefix(slots: Slots, i: nat)
    requires i < |slots|
    ensures FullCount(slots[..i + 1]) == FullCount(slots[..i]) + if slots[i].Some? then 1 else 0
  {
    assert slots[..i + 1][..i] == slots[..i];
  }

  /** The state of a probe for k at slot i: everything on the way from its home is full and not k. */
  ghost predicate Probed(hash: Key -> nat, slots: Slots, k: Key, i: nat) {
    i < |slots|
    && forall j :: 0 <= j < |slots| && OnPath(Home(hash, k, |slots|), j, i) ==> slots[j].Some? && slots[j] != Some(k)
  }

  /** A probe step keeps the probe's state and comes closer to any empty slot. */
  lemma ProbeStep(hash: Key -> nat, slots: Slots, k: Key, i: nat, e: nat)
    requires Probed(hash, slots, k, i) && slots[i].Some? && slots[i] != Some(k)
    requires e < |slots| && slots[e].None?
    ensures Probed(hash, slots, k, Next(i, |slots|))
    ensures Distance(Next(i, |slots|), e, |slots|) < Distance(i, e, |slots|)
  {
    assert !OnPath(Home(hash, k, |slots|), e, i);
  }

  lemma PathIsLinear(home: nat, i: nat, j: nat)
    ensures i != j ==> OnPath(home, i, j) || OnPath(home, j, i)
  {
  }

  /** A probe that ends at an empty slot has shown that the key is absent. */
  lemma ProbeMisses(hash: Key -> nat, slots: Slots, k: Key, i: nat)
    requires Reachable(hash, slots) && Probed(hash, slots, k, i) && slots[i].None?
    ensures k !in Keys(slots)
  {
    forall j | 0 <= j < |slots| && slots[j].Some? ensures slots[j].value != k {
      PathIsLinear(Home(hash, k, |slots|), i, j);
    }
  }

  lemma ProbeHits(slots: Slots, k: Key, i: nat)
    requires i < |slots| && slots[i] == Some(k)
    ensures k in Keys(slots)
  {
    assert slots[i].Some? && slots[i].value == k;
  }

  lemma ProbeStarts(hash: Key -> nat, slots: Slots, k: Key)
    ensures |slots| > 0 ==> Probed(hash, slots, k, Home(hash, k, |slots|))
  {
  }

  lemma NotThere(slots: Slots, k: Key, i: nat)
    ensures i < |slots| && k !in Keys(slots) ==> slots[i] != Some(k)
  {
  }

  /** Filling the empty slot where a probe ended keeps the invariant and adds exactly that key. */
  lemma ProbeInserts(hash: Key -> nat, slots: Slots, k: Key, i: nat)
    requires Reachable(hash, slots) && Probed(hash, slots, k, i) && slots[i].None?
    ensures var slots' := slots[i := Some(k)];
            Reachable(hash, slots') && Keys(slots') == Keys(slots) + {k}
            && FullCount(slots') == FullCount(slots) + 1
  {
    ProbeMisses(hash, slots, k, i);
    FullCountUpdate(slots, i, k);
    var slots' := slots[i := Some(k)];
    assert forall j :: 0 <= j < |slots| && slots[j].Some? ==> slots[j].value in Keys(slots);
    forall x | x in Keys(slots) + {k} ensures x in Keys(slots') {
      if x == k {
        assert slots'[i].value == k;
      } else {
        var j :| 0 <= j < |slots| && slots[j].Some? && slots[j].value == x;
        assert slots'[j].value == x;
      }
    }
  }

  // ---------------------------------------------------------------- tables

  /** The table invariant: at most three quarters full, counted, and every key reachable. */
  ghost predicate ValidTable(hash: Key -> nat, slots: Slots, capacity: nat, count: nat) {
    |slots| == capacity >= FIRST_CAPACITY && count == FullCount(slots) && LoadOk(count, capacity)
    && Reachable(hash, slots) && "" !in Keys(slots)
  }

  lemma NewTable(hash: Key -> nat, slots: Slots)
    requires forall i :: 0 <= i < |slots| ==> slots[i].None?
    ensures Reachable(hash, slots) && Keys(slots) == {} && FullCount(slots) == 0
  {
    FullCountOfEmpty(slots);
  }

  lemma {:induction false} FullCountMonotone(slots: Slots, i: nat)
    requires i <= |slots|
    ensures FullCount(slots[..i]) <= FullCount(slots)
    decreases |slots| - i
  {
    if i == |slots| {
      assert slots[..i] == slots;
    } else {
      FullCountPrefix(slots, i);
      FullCountMonotone(slots, i + 1);
    }
  }

  lemma KeysPrefix(slots: Slots, i: nat)
    requires i < |slots|
    ensures Keys(slots[..i + 1]) == Keys(slots[..i]) + if slots[i].Some? then {slots[i].value} else {}
  {
    var a, b := slots[..i], slots[..i + 1];
    forall k | k in Keys(a) ensures k in Keys(b) {
      var j :| 0 <= j < |a| && a[j].Some? && a[j].value == k;
      assert b[j] == a[j];
    }
    if slots[i].Some? {
      assert b[i].value in Keys(b);
    }
  }

  lemma OwnKeyIsNew(hash: Key -> nat, slots: Slots, i: nat)
    ensures Reachable(hash, slots) && i < |slots| && slots[i].Some? ==> slots[i].value !in Keys(slots[..i])
  {
  }
}
