/** The search-result filter of lib/linyaps_dbus_msg.c: drops develop modules and keeps, in place, the
    newest entry of every (repo, id, module) slot. */
module Filter {
  import opened Bytes
  import opened Versions

  /** The fields of a LinyapsPackageInfo that the filter reads. */
  class PackageInfo {
    const repo: Option<Text>
    const id: Option<Text>
    const module_: Option<Text>
    const version: Option<Text>

    constructor (repo: Option<Text>, id: Option<Text>, module_: Option<Text>, version: Option<Text>)
      ensures this.repo == repo && this.id == id && this.module_ == module_ && this.version == version
    {
      this.repo, this.id, this.module_, this.version := repo, id, module_, version;
    }
  }

  const DEVELOP: Text := [100, 101, 118, 101, 108, 111, 112]

  datatype Slot = Slot(repo: Text, id: Text, module_: Text)

  function OrEmpty(s: Option<Text>): Text { if s.Some? then s.value else [] }

  function SlotOf(p: PackageInfo): Slot {
    Slot(OrEmpty(p.repo), OrEmpty(p.id), OrEmpty(p.module_))
  }

  /** same_package_slot. */
  predicate SamePackageSlot(a: PackageInfo, b: PackageInfo) {
    StrCmp(OrEmpty(a.repo), OrEmpty(b.repo)) == 0 && StrCmp(OrEmpty(a.id), OrEmpty(b.id)) == 0
    && StrCmp(OrEmpty(a.module_), OrEmpty(b.module_)) == 0
  }

  /** Equal as C strings, NULL being taken for the empty one. */
  predicate Alike(x: Option<Text>, y: Option<Text>) {
    x == y || (x == None && y == Some([])) || (x == Some([]) && y == None)
  }

  /** Two entries share a slot exactly if their repository, their id and their module agree. */
  lemma SameSlot(a: PackageInfo, b: PackageInfo)
    ensures SamePackageSlot(a, b) <==> Alike(a.repo, b.repo) && Alike(a.id, b.id) && Alike(a.module_, b.module_)
    ensures SamePackageSlot(a, b) <==> SlotOf(a) == SlotOf(b)
  {
    StrCmpSign(OrEmpty(a.repo), OrEmpty(b.repo));
    StrCmpSign(OrEmpty(a.id), OrEmpty(b.id));
    StrCmpSign(OrEmpty(a.module_), OrEmpty(b.module_));
  }

  predicate IsDevelop(p: PackageInfo) { p.module_ == Some(DEVELOP) }

  // ---------------------------------------------------------------- what one pass computes

  /** The entries kept so far, in order, and those freed so far. */
  datatype Outcome = Outcome(kept: seq<PackageInfo>, freed: seq<PackageInfo>)

  /** Position of the first kept entry in the slot; |kept| if there is none. */
  function FindSlot(kept: seq<PackageInfo>, slot: Slot): (k: nat)
    ensures k <= |kept|
    ensures forall j :: 0 <= j < k ==> SlotOf(kept[j]) != slot
    ensures k < |kept| ==> SlotOf(kept[k]) == slot
  {
    if kept == [] then 0
    else if SlotOf(kept[0]) == slot then 0
    else 1 + FindSlot(kept[1..], slot)
  }

  function Step(o: Outcome, candidate: PackageInfo?): Outcome {
    if candidate == null then o
    else if IsDevelop(candidate) then o.(freed := o.freed + [candidate])
    else
      var k := FindSlot(o.kept, SlotOf(candidate));
      if k == |o.kept| then o.(kept := o.kept + [candidate])
      else if CompareVersions(o.kept[k].version, candidate.version) < 0 then
        Outcome(o.kept[k := candidate], o.freed + [o.kept[k]])
      else o.(freed := o.freed + [candidate])
  }

  function Filtered(list: seq<PackageInfo?>): Outcome {
    if list == [] then Outcome([], []) else Step(Filtered(list[..|list| - 1]), list[|list| - 1])
  }

  /** filter_store_search_results: compacts the list in place. */
  method FilterStoreSearchResults(items: array?<PackageInfo?>, count: nat)
    returns (out: nat, ghost freed: seq<PackageInfo>)
    requires items != null ==> count <= items.Length
    modifies items
    ensures items == null ==> out == count
    ensures items != null ==> out <= count && forall k :: 0 <= k < out ==> items[k] != null
    ensures items != null ==> Outcome(items[..out], freed) == Filtered(old(items[..count]))
  {
    freed := [];
    if items == null {
      return count, freed;
    }
    hide Step, Filtered;
    ghost var list := items[..count];
    NothingFiltered(list);
    out := 0;
    for i := 0 to count
      invariant out <= i && (forall k :: i <= k < count ==> items[k] == list[k])
      invariant forall k :: 0 <= k < out ==> items[k] != null
      invariant Outcome(items[..out], freed) == Filtered(list[..i])
    {
      FilteredNext(list, i);
      var candidate := items[i];
      if candidate != null {
        out, freed := Consider(items, out, candidate, freed);
      } else {
        StepCases(Outcome(items[..out], freed), candidate);
      }
    }
    assert list[..count] == list;
  }

  /** The loop body on an entry that is not NULL. */
  method Consider(items: array<PackageInfo?>, out: nat, candidate: PackageInfo, ghost freed: seq<PackageInfo>)
    returns (out': nat, ghost freed': seq<PackageInfo>)
    requires out < items.Length && forall k :: 0 <= k < out ==> items[k] != null
    modifies items
    ensures out <= out' <= out + 1 && forall k :: 0 <= k < out' ==> items[k] != null
    ensures Outcome(items[..out'], freed') == Step(Outcome(old(items[..out]), freed), candidate)
    ensures forall k :: out < k < items.Length ==> items[k] == old(items[k])
    ensures out' == out ==> items[out] == old(items[out])
  {
    hide Step, FindSlot, SlotOf, CompareVersions;
    ghost var before: seq<PackageInfo> := items[..out];
    StepCases(Outcome(before, freed), candidate);
    out', freed' := out, freed;
    if candidate.module_ == Some(DEVELOP) {
      freed' := freed + [candidate];
      return;
    }
    var found := FindFirst(items, out, candidate);
    if found == out {
      items[out] := candidate;
      out' := out + 1;
      assert items[..out'] == before + [candidate];
      return;
    }
    var order := CompareVersionsLoop(items[found].version, candidate.version);
    if order < 0 {
      freed' := freed + [before[found]];
      items[found] := candidate;
      assert items[..out] == before[found := candidate];
    } else {
      freed' := freed + [candidate];
    }
  }

  lemma NothingFiltered(list: seq<PackageInfo?>)
    ensures Filtered(list[..0]) == Outcome([], [])
  {
  }

  /** The inner search loop: the first kept entry in the slot of the candidate. */
  method FindFirst(items: array<PackageInfo?>, out: nat, candidate: PackageInfo) returns (found: nat)
    requires out <= items.Length && forall k :: 0 <= k < out ==> items[k] != null
    ensures found == FindSlot(items[..out], SlotOf(candidate))
  {
    hide SlotOf, SamePackageSlot;
    found := out;
    ghost var kept: seq<PackageInfo> := items[..out];
    for j := 0 to out
      invariant found == out
      invariant FindSlot(kept, SlotOf(candidate)) >= j
    {
      SameSlot(items[j], candidate);
      assert kept[j] == items[j];
      if SamePackageSlot(items[j], candidate) {
        found := j;
        break;
      }
    }
  }

  lemma FilteredNext(list: seq<PackageInfo?>, i: nat)
    requires i < |list|
    ensures Filtered(list[..i + 1]) == Step(Filtered(list[..i]), list[i])
  {
    assert list[..i + 1][..i] == list[..i];
  }

  lemma StepCases(o: Outcome, c: PackageInfo?)
    ensures c == null ==> Step(o, c) == o
    ensures c != null && IsDevelop(c) ==> Step(o, c) == Outcome(o.kept, o.freed + [c])
    ensures c != null && !IsDevelop(c) ==>
              var k := FindSlot(o.kept, SlotOf(c));
              (k == |o.kept| ==> Step(o, c) == Outcome(o.kept + [c], o.freed))
              && (k < |o.kept| && CompareVersions(o.kept[k].version, c.version) < 0 ==>
                    Step(o, c) == Outcome(o.kept[k := c], o.freed + [o.kept[k]]))
              && (k < |o.kept| && CompareVersions(o.kept[k].version, c.version) >= 0 ==>
                    Step(o, c) == Outcome(o.kept, o.freed + [c]))
  {
  }

  // ---------------------------------------------------------------- what the result means

  /** The entries that are not NULL. */
  function Present(list: seq<PackageInfo?>): seq<PackageInfo> {
    if list == [] then []
    else
      var p := list[|list| - 1];
      Present(list[..|list| - 1]) + if p == null then [] else [p]
  }

  /** The slots of the entries that are neither NULL nor develop modules, in order of first appearance. */
  function SlotsInOrder(list: seq<PackageInfo?>): seq<Slot> {
    if list == [] then []
    else
      var slots, p := SlotsInOrder(list[..|list| - 1]), list[|list| - 1];
      if p == null || IsDevelop(p) || SlotOf(p) in slots then slots else slots + [SlotOf(p)]
  }

  /** The entries of one slot, in order. */
  function Entries(list: seq<PackageInfo?>, slot: Slot): seq<PackageInfo> {
    if list == [] then []
    else
      var p := list[|list| - 1];
      Entries(list[..|list| - 1], slot)
      + if p == null || IsDevelop(p) || SlotOf(p) != slot then [] else [p]
  }

  /** The entry a newer one always replaces: the result of comparing from left to right. */
  function Best(es: seq<PackageInfo>): PackageInfo
    requires es != []
  {
    if |es| == 1 then es[0]
    else
      var b, e := Best(es[..|es| - 1]), es[|es| - 1];
      if CompareVersions(b.version, e.version) < 0 then e else b
  }

  /** Every entry is kept once or freed once, and never both. */
  lemma {:induction false} NothingLost(list: seq<PackageInfo?>)
    ensures multiset(Filtered(list).kept) + multiset(Filtered(list).freed) == multiset(Present(list))
  {
    if list != [] {
      var o, c := Filtered(list[..|list| - 1]), list[|list| - 1];
      NothingLost(list[..|list| - 1]);
      StepCases(o, c);
      hide Step, FindSlot, CompareVersions;
      if c != null && !IsDevelop(c) {
        var k := FindSlot(o.kept, SlotOf(c));
        if k < |o.kept| {
          assert multiset(o.kept[k := c]) == multiset(o.kept) - multiset{o.kept[k]} + multiset{c};
        }
      }
    }
  }

  lemma {:induction false} PresentDistinct(list: seq<PackageInfo?>, p: PackageInfo)
    requires forall i, j :: 0 <= i < j < |list| && list[i] != null ==> list[i] != list[j]
    ensures multiset(Present(list))[p] == if p in list then 1 else 0
  {
    if list != [] {
      PresentDistinct(list[..|list| - 1], p);
      assert list == list[..|list| - 1] + [list[|list| - 1]];
    }
  }

  /** If no entry stands twice in the list, each is kept or freed, once and not both, and nothing else is. */
  lemma KeptOrFreed(list: seq<PackageInfo?>, p: PackageInfo)
    requires forall i, j :: 0 <= i < j < |list| && list[i] != null ==> list[i] != list[j]
    ensures multiset(Filtered(list).kept)[p] + multiset(Filtered(list).freed)[p] == if p in list then 1 else 0
  {
    hide Filtered, Present;
    NothingLost(list);
    PresentDistinct(list, p);
    var o := Filtered(list);
    assert (multiset(o.kept) + multiset(o.freed))[p] == multiset(o.kept)[p] + multiset(o.freed)[p];
  }

  /** kept is the filter's result for list: one survivor for each slot. */
  ghost predicate KeepsBest(list: seq<PackageInfo?>, kept: seq<PackageInfo>) {
    |kept| == |SlotsInOrder(list)|
    && forall i :: 0 <= i < |kept| ==>
         SlotOf(kept[i]) == SlotsInOrder(list)[i] && !IsDevelop(kept[i])
         && Entries(list, SlotOf(kept[i])) != [] && kept[i] == Best(Entries(list, SlotOf(kept[i])))
  }

  lemma {:induction false} SlotsDistinct(list: seq<PackageInfo?>)
    ensures forall i, j :: 0 <= i < j < |SlotsInOrder(list)| ==> SlotsInOrder(list)[i] != SlotsInOrder(list)[j]
  {
    if list != [] {
      SlotsDistinct(list[..|list| - 1]);
    }
  }

  lemma {:induction false} EntriesOfSlot(list: seq<PackageInfo?>, slot: Slot)
    ensures Entries(list, slot) != [] <==> slot in SlotsInOrder(list)
    ensures forall k :: 0 <= k < |Entries(list, slot)| ==>
              SlotOf(Entries(list, slot)[k]) == slot && !IsDevelop(Entries(list, slot)[k])
  {
    if list != [] {
      EntriesOfSlot(list[..|list| - 1], slot);
    }
  }

  /** One survivor per slot, in the order in which the slots first appear, each the best of its slot. */
  lemma {:induction false} FilterKeepsBest(list: seq<PackageInfo?>)
    ensures KeepsBest(list, Filtered(list).kept)
  {
    if list != [] {
      FilterKeepsBest(list[..|list| - 1]);
      StepKeepsBest(list[..|list| - 1], list[|list| - 1], Filtered(list[..|list| - 1]));
      assert list[..|list| - 1] + [list[|list| - 1]] == list;
    }
  }

  lemma AppendEntry(list: seq<PackageInfo?>, c: PackageInfo?, slot: Slot)
    ensures Entries(list + [c], slot) ==
            Entries(list, slot) + if c == null || IsDevelop(c) || SlotOf(c) != slot then [] else [c]
    ensures SlotsInOrder(list + [c]) ==
            SlotsInOrder(list)
            + if c == null || IsDevelop(c) || SlotOf(c) in SlotsInOrder(list) then [] else [SlotOf(c)]
  {
    assert (list + [c])[..|list|] == list;
  }

  lemma BestOfAppend(es: seq<PackageInfo>, c: PackageInfo)
    ensures es == [] ==> Best(es + [c]) == c
    ensures es != [] ==> Best(es + [c]) == if CompareVersions(Best(es).version, c.version) < 0 then c else Best(es)
  {
    hide CompareVersions;
    assert (es + [c])[..|es|] == es;
  }

  lemma StepKeepsBest(list: seq<PackageInfo?>, c: PackageInfo?, o: Outcome)
    requires KeepsBest(list, o.kept)
    ensures KeepsBest(list + [c], Step(o, c).kept)
  {
    var slots, kept := SlotsInOrder(list), Step(o, c).kept;
    StepCases(o, c);
    hide Step, SlotsInOrder, Entries, Best, CompareVersions, SlotOf, IsDevelop;
    forall slot ensures Entries(list + [c], slot) ==
                        Entries(list, slot) + if c == null || IsDevelop(c) || SlotOf(c) != slot then [] else [c]
    {
      AppendEntry(list, c, slot);
    }
    AppendEntry(list, c, Slot([], [], []));
    if c != null && !IsDevelop(c) {
      var slot := SlotOf(c);
      SlotsDistinct(list);
      EntriesOfSlot(list, slot);
      BestOfAppend(Entries(list, slot), c);
      var k := FindSlot(o.kept, slot);
      assert slot in slots <==> k < |slots| by {
        forall j | 0 <= j < |slots| ensures slots[j] == slot ==> k < |slots| {
          assert SlotOf(o.kept[j]) == slots[j];
        }
        assert k < |slots| ==> slots[k] == slot;
      }
      assert SlotsInOrder(list + [c]) == if k < |slots| then slots else slots + [slot];
      forall i | 0 <= i < |kept|
        ensures SlotOf(kept[i]) == SlotsInOrder(list + [c])[i] && !IsDevelop(kept[i])
        ensures Entries(list + [c], SlotOf(kept[i])) != []
        ensures kept[i] == Best(Entries(list + [c], SlotOf(kept[i])))
      {
        if i == k {
          assert SlotOf(kept[i]) == slot;
          assert Entries(list + [c], slot) == Entries(list, slot) + [c];
        } else {
          assert kept[i] == o.kept[i] && SlotOf(kept[i]) == slots[i] != slot;
          assert Entries(list + [c], slots[i]) == Entries(list, slots[i]);
        }
      }
    } else {
      assert kept == o.kept && SlotsInOrder(list + [c]) == slots;
      forall i | 0 <= i < |kept| ensures Entries(list + [c], SlotOf(kept[i])) == Entries(list, SlotOf(kept[i])) {
        AppendEntry(list, c, SlotOf(kept[i]));
      }
    }
  }

  /** No entry of es is newer than entry m. */
  ghost predicate IsNewest(es: seq<PackageInfo>, m: int) {
    0 <= m < |es| && forall q :: 0 <= q < |es| ==> CompareVersions(es[q].version, es[m].version) <= 0
  }

  ghost predicate HasNewest(es: seq<PackageInfo>) { exists m :: IsNewest(es, m) }

  /** e is a newest entry of es and the first of the newest. */
  ghost predicate EarliestNewest(es: seq<PackageInfo>, e: PackageInfo) {
    exists p :: IsEarliestNewest(es, p) && es[p] == e
  }

  ghost predicate IsEarliestNewest(es: seq<PackageInfo>, p: int) {
    IsNewest(es, p) && forall q :: 0 <= q < p ==> CompareVersions(es[q].version, es[p].version) < 0
  }

  /** The first entry with the version of entry m. */
  lemma {:induction false} FirstOfVersion(es: seq<PackageInfo>, m: nat) returns (p: nat)
    requires m < |es|
    ensures p <= m && es[p].version == es[m].version
    ensures forall q :: 0 <= q < p ==> es[q].version != es[p].version
    decreases m
  {
    p := m;
    if q: nat :| q < m && es[q].version == es[m].version {
      p := FirstOfVersion(es, q);
    }
  }

  lemma NewestHasEarliest(es: seq<PackageInfo>, m: nat) returns (p: nat)
    requires IsNewest(es, m)
    ensures IsEarliestNewest(es, p)
  {
    hide CompareVersions;
    p := FirstOfVersion(es, m);
    forall q | 0 <= q < p
      ensures CompareVersions(es[q].version, es[p].version) < 0
    {
      CompareAntisymmetric(es[q].version, es[p].version);
    }
  }

  /** Going from left to right, the earliest newest entry replaces what was there and is never replaced. */
  lemma {:induction false} BestFindsEarliest(es: seq<PackageInfo>, p: nat, n: nat)
    requires IsEarliestNewest(es, p) && p < n <= |es|
    ensures Best(es[..n]) == es[p]
  {
    hide CompareVersions;
    var e := es[n - 1];
    if n > 1 {
      assert es[..n][..n - 1] == es[..n - 1] && es[..n][n - 1] == e;
    }
    if p < n - 1 {
      BestFindsEarliest(es, p, n - 1);
      CompareAntisymmetric(e.version, es[p].version);
    } else if n > 1 {
      BestIsEntry(es[..n - 1]);
      var q :| 0 <= q < n - 1 && es[q] == Best(es[..n - 1]);
    }
  }

  /** Whatever the versions are, the entry left over is the earliest of the newest exactly when there is a newest
      entry at all, one that no other entry compares greater than. */
  lemma BestExactlyNewest(es: seq<PackageInfo>)
    requires es != []
    ensures EarliestNewest(es, Best(es)) <==> HasNewest(es)
  {
    hide Best, CompareVersions;
    if m :| IsNewest(es, m) {
      var p := NewestHasEarliest(es, m);
      BestFindsEarliest(es, p, |es|);
      assert es[..|es|] == es;
    }
  }

  /** So it is for every slot of the filter and its survivor. */
  lemma SurvivorExactlyNewest(list: seq<PackageInfo?>, i: nat)
    ensures var kept := Filtered(list).kept;
            i < |kept| ==>
              var es := Entries(list, SlotOf(kept[i]));
              EarliestNewest(es, kept[i]) <==> HasNewest(es)
  {
    hide Filtered, Entries, EarliestNewest, HasNewest, SlotOf;
    FilterKeepsBest(list);
    if i < |Filtered(list).kept| {
      BestExactlyNewest(Entries(list, SlotOf(Filtered(list).kept[i])));
    }
  }

  // ---------------------------------------------------------------- when there is a newest entry

  /** No three entries of es break the transitivity of the comparison. */
  ghost predicate Unbroken(es: seq<PackageInfo>) {
    forall i, j, k :: 0 <= i < |es| && 0 <= j < |es| && 0 <= k < |es| ==>
      !Breaks(es[i].version, es[j].version, es[k].version)
  }

  lemma {:induction false} UnbrokenHasNewest(es: seq<PackageInfo>)
    requires es != [] && Unbroken(es)
    ensures HasNewest(es)
  {
    hide CompareVersions, Breaks;
    var n := |es| - 1;
    var e := es[n];
    CompareAntisymmetric(e.version, e.version);
    if n == 0 {
      assert IsNewest(es, 0);
    } else {
      assert forall q :: 0 <= q < n ==> es[..n][q] == es[q];
      UnbrokenHasNewest(es[..n]);
      var p :| IsNewest(es[..n], p);
      CompareAntisymmetric(es[p].version, e.version);
      if CompareVersions(es[p].version, e.version) < 0 {
        forall q | 0 <= q < n ensures CompareVersions(es[q].version, e.version) <= 0 {
          assert CompareVersions(es[..n][q].version, es[..n][p].version) <= 0;
          TransitiveExactly(es[q].version, es[p].version, e.version);
        }
        assert IsNewest(es, n);
      } else {
        assert forall q :: 0 <= q < n ==> CompareVersions(es[..n][q].version, es[..n][p].version) <= 0;
        assert IsNewest(es, p);
      }
    }
  }

  /** The entries of es can be compared with one another without surprises. */
  ghost predicate AllRegular(es: seq<PackageInfo>) {
    forall i, j :: 0 <= i < |es| && 0 <= j < |es| ==> RegularPair(es[i].version, es[j].version)
  }

  lemma RegularUnbroken(es: seq<PackageInfo>)
    requires AllRegular(es)
    ensures Unbroken(es)
  {
    hide CompareVersions, Regular, VersionOrder;
    assert forall i, j :: 0 <= i < |es| && 0 <= j < |es| ==> RegularPair(es[i].version, es[j].version);
  }

  /** On pairwise regular versions the best entry is the earliest of the newest. */
  lemma BestIsNewest(es: seq<PackageInfo>)
    requires es != [] && AllRegular(es)
    ensures EarliestNewest(es, Best(es))
  {
    hide AllRegular, Unbroken, HasNewest, EarliestNewest, Best;
    RegularUnbroken(es);
    UnbrokenHasNewest(es);
    BestExactlyNewest(es);
  }

  /** NULL, or decimal numbers without leading zeros separated by dots. */
  ghost predicate IsCanonical(v: Option<Text>) {
    v.Some? ==> exists cs: seq<Component> :: cs != [] && v.value == Dotted(cs)
  }

  lemma CanonicalRegular(a: Option<Text>, b: Option<Text>)
    requires IsCanonical(a) && IsCanonical(b)
    ensures RegularPair(a, b)
  {
    hide Regular, Dotted;
    if a.Some? && b.Some? {
      var xs: seq<Component> :| xs != [] && a.value == Dotted(xs);
      var ys: seq<Component> :| ys != [] && b.value == Dotted(ys);
      CompareCanonical(xs, ys);
    }
  }

  /** The filter keeps, for every slot whose versions are NULL or canonical, the earliest of its newest entries. */
  lemma SurvivorIsNewest(list: seq<PackageInfo?>, i: nat)
    ensures var kept := Filtered(list).kept;
            i < |kept| ==>
              var es := Entries(list, SlotOf(kept[i]));
              (forall j :: 0 <= j < |es| ==> IsCanonical(es[j].version)) || AllRegular(es) ==>
                 EarliestNewest(es, kept[i])
  {
    hide Filtered, Entries, EarliestNewest, SlotOf, IsCanonical, RegularPair;
    FilterKeepsBest(list);
    if i < |Filtered(list).kept| {
      var es := Entries(list, SlotOf(Filtered(list).kept[i]));
      if forall j :: 0 <= j < |es| ==> IsCanonical(es[j].version) {
        forall j, k | 0 <= j < |es| && 0 <= k < |es|
          ensures RegularPair(es[j].version, es[k].version)
        {
          CanonicalRegular(es[j].version, es[k].version);
        }
      }
      if AllRegular(es) {
        BestIsNewest(es);
      }
    }
  }

  /** On other versions this fails: of "01.5", "1" and "1.3" in one slot, in this order, the filter keeps "1.3",
      although "01.5" compares greater; none of the three is newest. */
  lemma SurvivorNeedNotBeNewest(p: PackageInfo, q: PackageInfo, r: PackageInfo)
    requires p.version == Some([48, 49, 46, 53]) && q.version == Some([49]) && r.version == Some([49, 46, 51])
    requires SlotOf(p) == SlotOf(q) == SlotOf(r) && !IsDevelop(p)
    ensures Filtered([p, q, r]).kept == [r] && Entries([p, q, r], SlotOf(r)) == [p, q, r]
    ensures CompareVersions(r.version, p.version) < 0 && !HasNewest([p, q, r])
  {
    NotTransitive();
    hide CompareVersions, Regular;
    CompareAntisymmetric(p.version, r.version);
    CompareAntisymmetric(p.version, q.version);
    CompareAntisymmetric(q.version, r.version);
    hide Filtered, Entries, HasNewest, SlotOf, IsDevelop;
    KeepsLast(p, q, r);
    RoundAboutHasNoNewest(p, q, r);
  }

  /** Each of three entries of a slot replaces the one before. */
  lemma KeepsLast(p: PackageInfo, q: PackageInfo, r: PackageInfo)
    requires SlotOf(p) == SlotOf(q) == SlotOf(r) && !IsDevelop(p)
    requires CompareVersions(p.version, q.version) < 0 && CompareVersions(q.version, r.version) < 0
    ensures Filtered([p, q, r]).kept == [r] && Entries([p, q, r], SlotOf(r)) == [p, q, r]
  {
    SameModule(p, q, r);
    hide CompareVersions, SlotOf, IsDevelop;
    var none: seq<PackageInfo?>, one: seq<PackageInfo?>, two: seq<PackageInfo?>, list: seq<PackageInfo?>
      := [], [p], [p, q], [p, q, r];
    assert none + [p] == one && one + [q] == two && two + [r] == list;
    AppendEntry(none, p, SlotOf(r));
    AppendEntry(one, q, SlotOf(r));
    AppendEntry(two, r, SlotOf(r));
    NothingKept(SlotOf(r));
    FilteredAppend(none, p);
    FilteredAppend(one, q);
    FilteredAppend(two, r);
    hide Filtered, Entries, Step;
    StepStarts(p);
    StepReplaces(Filtered(one), p, q);
    StepReplaces(Filtered(two), q, r);
  }

  lemma NothingKept(slot: Slot)
    ensures Filtered([]) == Outcome([], []) && Entries([], slot) == []
  {
  }

  lemma FilteredAppend(list: seq<PackageInfo?>, c: PackageInfo?)
    ensures Filtered(list + [c]) == Step(Filtered(list), c)
  {
    hide Step;
    assert (list + [c])[..|list|] == list;
  }

  lemma StepStarts(c: PackageInfo)
    ensures !IsDevelop(c) ==> Step(Outcome([], []), c) == Outcome([c], [])
  {
  }

  lemma StepReplaces(o: Outcome, b: PackageInfo, c: PackageInfo)
    requires o.kept == [b] && SlotOf(b) == SlotOf(c) && !IsDevelop(c) && CompareVersions(b.version, c.version) < 0
    ensures Step(o, c).kept == [c]
  {
    hide CompareVersions, SlotOf, IsDevelop;
  }

  lemma RoundAboutHasNoNewest(p: PackageInfo, q: PackageInfo, r: PackageInfo)
    requires CompareVersions(q.version, p.version) > 0 && CompareVersions(r.version, q.version) > 0
    requires CompareVersions(p.version, r.version) > 0
    ensures !HasNewest([p, q, r])
  {
    hide CompareVersions;
    var es := [p, q, r];
    if m :| IsNewest(es, m) {
      assert es[0] == p && es[1] == q && es[2] == r;
    }
  }

  lemma SameModule(p: PackageInfo, q: PackageInfo, r: PackageInfo)
    ensures SlotOf(p) == SlotOf(q) == SlotOf(r) && !IsDevelop(p) ==> !IsDevelop(q) && !IsDevelop(r)
  {
  }

  /** Whatever the versions are: no develop module survives, no two survivors share a slot, and the
      survivors' slots are all the slots in order of first appearance. */
  lemma SurvivorsBySlot(list: seq<PackageInfo?>)
    ensures var kept := Filtered(list).kept;
            (forall i :: 0 <= i < |kept| ==> !IsDevelop(kept[i]) && kept[i] in Entries(list, SlotOf(kept[i])))
            && (forall i, j :: 0 <= i < j < |kept| ==> SlotOf(kept[i]) != SlotOf(kept[j]))
            && |kept| == |SlotsInOrder(list)|
            && forall i :: 0 <= i < |kept| ==> SlotOf(kept[i]) == SlotsInOrder(list)[i]
  {
    hide Filtered, Entries, SlotsInOrder, SlotOf, Best, IsDevelop;
    FilterKeepsBest(list);
    SlotsDistinct(list);
    var kept := Filtered(list).kept;
    forall i | 0 <= i < |kept| ensures kept[i] in Entries(list, SlotOf(kept[i])) {
      BestIsEntry(Entries(list, SlotOf(kept[i])));
    }
  }

  lemma {:induction false} BestIsEntry(es: seq<PackageInfo>)
    requires es != []
    ensures Best(es) in es
  {
    hide CompareVersions;
    if |es| > 1 {
      BestIsEntry(es[..|es| - 1]);
    }
  }

  // ---------------------------------------------------------------- the same on the fields of the entries

  /** The three fields of the entries agree. */
  predicate FieldsAgree(p: PackageInfo, q: PackageInfo) {
    Alike(p.repo, q.repo) && Alike(p.id, q.id) && Alike(p.module_, q.module_)
  }

  /** Entry k of the list competes with p: it is not NULL, no develop module, and has its repository, id and module. */
  predicate Competes(list: seq<PackageInfo?>, k: nat, p: PackageInfo) {
    k < |list| && list[k] != null && list[k].module_ != Some([100, 101, 118, 101, 108, 111, 112])
    && FieldsAgree(list[k], p)
  }

  lemma AgreeIsSlot(p: PackageInfo, q: PackageInfo)
    ensures FieldsAgree(p, q) <==> SlotOf(p) == SlotOf(q)
  {
    SameSlot(p, q);
  }

  /** Entry m of a slot stands in the list, behind only those before it in the slot. */
  lemma {:induction false} EntryPosition(list: seq<PackageInfo?>, slot: Slot, m: nat) returns (p: nat)
    requires m < |Entries(list, slot)|
    ensures p < |list| && list[p] == Entries(list, slot)[m]
    ensures forall q :: 0 <= q < p && list[q] != null && !IsDevelop(list[q]) && SlotOf(list[q]) == slot ==>
              list[q] in Entries(list, slot)[..m]
  {
    hide SlotOf, IsDevelop;
    var n := |list| - 1;
    if m < |Entries(list[..n], slot)| {
      p := EntryPosition(list[..n], slot, m);
      assert Entries(list, slot)[..m] == Entries(list[..n], slot)[..m];
      forall q | 0 <= q < p && list[q] != null && !IsDevelop(list[q]) && SlotOf(list[q]) == slot
        ensures list[q] in Entries(list, slot)[..m]
      {
        assert list[..n][q] == list[q];
      }
    } else {
      p := n;
      assert Entries(list, slot)[..m] == Entries(list[..n], slot);
      forall q | 0 <= q < p && list[q] != null && !IsDevelop(list[q]) && SlotOf(list[q]) == slot
        ensures list[q] in Entries(list, slot)[..m]
      {
        assert list[..n][q] == list[q];
        EntryIsListed(list[..n], slot, q);
      }
    }
  }

  lemma {:induction false} EntryIsListed(list: seq<PackageInfo?>, slot: Slot, q: nat)
    requires q < |list| && list[q] != null && !IsDevelop(list[q]) && SlotOf(list[q]) == slot
    ensures list[q] in Entries(list, slot)
  {
    hide SlotOf, IsDevelop;
    var n := |list| - 1;
    if q < n {
      assert list[..n][q] == list[q];
      EntryIsListed(list[..n], slot, q);
    }
  }

  /** For every entry that is no develop module exactly one survivor has its repository, id and module. */
  lemma OneSurvivor(list: seq<PackageInfo?>, q: nat)
    requires q < |list| && list[q] != null && list[q].module_ != Some([100, 101, 118, 101, 108, 111, 112])
    ensures var kept := Filtered(list).kept;
            exists i :: 0 <= i < |kept| && FieldsAgree(kept[i], list[q])
                        && forall j :: 0 <= j < |kept| && FieldsAgree(kept[j], list[q]) ==> j == i
  {
    var p: PackageInfo := list[q];
    assert !IsDevelop(p);
    hide Filtered, SlotOf, IsDevelop, FieldsAgree;
    EntryIsListed(list, SlotOf(p), q);
    EntriesOfSlot(list, SlotOf(p));
    SurvivorsBySlot(list);
    var i :| 0 <= i < |SlotsInOrder(list)| && SlotsInOrder(list)[i] == SlotOf(p);
    var kept := Filtered(list).kept;
    forall j | 0 <= j < |kept|
      ensures FieldsAgree(kept[j], p) <==> j == i
    {
      AgreeIsSlot(kept[j], p);
      assert SlotOf(kept[j]) == SlotsInOrder(list)[j];
    }
    assert FieldsAgree(kept[i], p);
  }

  /** No develop module survives, and every survivor is an entry of the list. */
  lemma NoDevelopSurvives(list: seq<PackageInfo?>, i: nat)
    ensures var kept := Filtered(list).kept;
            i < |kept| ==> kept[i].module_ != Some([100, 101, 118, 101, 108, 111, 112])
                           && exists q: nat :: Competes(list, q, kept[i]) && list[q] == kept[i]
  {
    hide Filtered, Entries, SlotOf;
    SurvivorsBySlot(list);
    if i < |Filtered(list).kept| {
      var e := Filtered(list).kept[i];
      var m :| 0 <= m < |Entries(list, SlotOf(e))| && Entries(list, SlotOf(e))[m] == e;
      var p := EntryPosition(list, SlotOf(e), m);
      assert Competes(list, p, e);
    }
  }

  /** Entry p of the list is the survivor e; no competing entry is newer, and those before it are older. */
  ghost predicate Wins(list: seq<PackageInfo?>, p: nat, e: PackageInfo) {
    Competes(list, p, e) && list[p] == e
    && forall q: nat :: Competes(list, q, e) ==>
         CompareVersions(list[q].version, e.version) <= 0
         && (q < p ==> CompareVersions(list[q].version, e.version) < 0)
  }

  lemma EarliestWins(list: seq<PackageInfo?>, e: PackageInfo)
    requires EarliestNewest(Entries(list, SlotOf(e)), e) && e.module_ != Some([100, 101, 118, 101, 108, 111, 112])
    ensures exists p: nat :: Wins(list, p, e)
  {
    hide CompareVersions, SlotOf, Entries, FieldsAgree;
    var slot := SlotOf(e);
    var es := Entries(list, slot);
    var m :| IsEarliestNewest(es, m) && es[m] == e;
    var p := EntryPosition(list, slot, m);
    AgreeIsSlot(e, e);
    forall q: nat | Competes(list, q, e)
      ensures CompareVersions(list[q].version, e.version) <= 0
      ensures q < p ==> CompareVersions(list[q].version, e.version) < 0
    {
      AgreeIsSlot(list[q], e);
      EntryIsListed(list, slot, q);
    }
    assert Wins(list, p, e);
  }

  /** Entry m of the list competes with e, and no competing entry is newer than it. */
  ghost predicate Unbeaten(list: seq<PackageInfo?>, m: nat, e: PackageInfo) {
    Competes(list, m, e)
    && forall q: nat :: Competes(list, q, e) ==> CompareVersions(list[q].version, list[m].version) <= 0
  }

  lemma UnbeatenIsNewest(list: seq<PackageInfo?>, m: nat, e: PackageInfo)
    requires Unbeaten(list, m, e)
    ensures HasNewest(Entries(list, SlotOf(e)))
  {
    hide CompareVersions, SlotOf, Entries, FieldsAgree;
    var slot := SlotOf(e);
    var es := Entries(list, slot);
    AgreeIsSlot(list[m], e);
    EntryIsListed(list, slot, m);
    EntriesOfSlot(list, slot);
    var k :| 0 <= k < |es| && es[k] == list[m];
    forall q | 0 <= q < |es| ensures CompareVersions(es[q].version, es[k].version) <= 0 {
      var p := EntryPosition(list, slot, q);
      AgreeIsSlot(es[q], e);
      assert Competes(list, p, e);
    }
    assert IsNewest(es, k);
  }

  /** Whatever the versions are, the survivor is the first of the newest among the competing entries of the list if
      and only if one of these is unbeaten. */
  lemma SurvivorWinsExactly(list: seq<PackageInfo?>, i: nat)
    ensures var kept := Filtered(list).kept;
            i < |kept| ==>
              ((exists p: nat :: Wins(list, p, kept[i])) <==> exists m: nat :: Unbeaten(list, m, kept[i]))
  {
    hide Filtered, Entries, SlotOf, EarliestNewest, HasNewest, CompareVersions, Competes;
    NoDevelopSurvives(list, i);
    SurvivorExactlyNewest(list, i);
    if i < |Filtered(list).kept| {
      var e := Filtered(list).kept[i];
      if p: nat :| Wins(list, p, e) {
        assert Unbeaten(list, p, e);
      }
      if m: nat :| Unbeaten(list, m, e) {
        UnbeatenIsNewest(list, m, e);
        EarliestWins(list, e);
      }
    }
  }

  /** Among the competing entries of the list, if their versions are NULL or canonical, the survivor is the first of
      the newest. */
  lemma SurvivorWins(list: seq<PackageInfo?>, i: nat)
    ensures var kept := Filtered(list).kept;
            i < |kept| && (forall q: nat :: Competes(list, q, kept[i]) ==> IsCanonical(list[q].version)) ==>
              exists p: nat :: Wins(list, p, kept[i])
  {
    hide Filtered, Entries, SlotOf, IsCanonical, EarliestNewest, FieldsAgree, Wins;
    NoDevelopSurvives(list, i);
    SurvivorIsNewest(list, i);
    var kept := Filtered(list).kept;
    if i < |kept| && forall q: nat :: Competes(list, q, kept[i]) ==> IsCanonical(list[q].version) {
      var slot := SlotOf(kept[i]);
      var es := Entries(list, slot);
      EntriesOfSlot(list, slot);
      forall m | 0 <= m < |es| ensures IsCanonical(es[m].version) {
        var p := EntryPosition(list, slot, m);
        AgreeIsSlot(es[m], kept[i]);
        assert Competes(list, p, kept[i]);
      }
      EarliestWins(list, kept[i]);
    }
  }
}
