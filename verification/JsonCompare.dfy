/** What cJSON_Compare of 3rdparty/cjson/cJSON.c decides, and its meaning: two values are the same
    JSON up to the order of object members. */
module JsonCompare {
  import opened Bytes
  import opened Json

  function LowerByte(c: Byte): Byte { if 65 <= c <= 90 then c + 32 else c }

  function Lower(s: Text): Text { if s == [] then [] else [LowerByte(s[0])] + Lower(s[1..]) }

  /** What of a key the comparison looks at. */
  function Fold(key: Text, caseSensitive: bool): Text { if caseSensitive then key else Lower(key) }

  predicate KeyMatches(name: Text, key: Text, caseSensitive: bool) {
    Fold(name, caseSensitive) == Fold(key, caseSensitive)
  }

  /** The first member whose key matches. */
  function Find(members: seq<Member>, name: Text, caseSensitive: bool): Option<Value> {
    if members == [] then None
    else if KeyMatches(name, members[0].key, caseSensitive) then Some(members[0].value)
    else Find(members[1..], name, caseSensitive)
  }

  /** get_object_item: a member that is null counts as missing. */
  function GetItem(members: seq<Member>, name: Text, caseSensitive: bool): Option<Value> {
    var r := Find(members, name, caseSensitive);
    if r == Some(Null) then None else r
  }

  lemma {:induction false} ItemNesting(items: seq<Value>, i: nat)
    requires i < |items|
    ensures Nesting(items[i]) <= ItemsNesting(items)
  {
    if i > 0 {
      ItemNesting(items[1..], i - 1);
    }
  }

  lemma {:induction false} MemberNesting(members: seq<Member>, i: nat)
    requires i < |members|
    ensures Nesting(members[i].value) <= MembersNesting(members)
  {
    if i > 0 {
      MemberNesting(members[1..], i - 1);
    }
  }

  lemma {:induction false} FindNesting(members: seq<Member>, name: Text, caseSensitive: bool)
    ensures var r := Find(members, name, caseSensitive); r.Some? ==> Nesting(r.value) <= MembersNesting(members)
  {
    if members != [] && !KeyMatches(name, members[0].key, caseSensitive) {
      FindNesting(members[1..], name, caseSensitive);
    }
  }

  /** What cJSON_Compare answers for two trees that share no node. */
  ghost predicate Same(a: Value, b: Value, caseSensitive: bool)
    decreases Nesting(a) + Nesting(b), 1
  {
    match (a, b)
    case (Null, Null) => true
    case (False, False) => true
    case (True, True) => true
    case (Number(x), Number(y)) => x == y
    case (String(x), String(y)) => x == y
    case (Array(xs), Array(ys)) =>
      |xs| == |ys|
      && forall i :: 0 <= i < |xs| ==> (ItemNesting(xs, i); ItemNesting(ys, i); Same(xs[i], ys[i], caseSensitive))
    case (Object(xs), Object(ys)) => Covered(xs, ys, caseSensitive) && Covered(ys, xs, caseSensitive)
    case _ => false
  }

  /** Every member of xs is found in ys with the same value. */
  ghost predicate Covered(xs: seq<Member>, ys: seq<Member>, caseSensitive: bool)
    decreases MembersNesting(xs) + MembersNesting(ys) + 1, 0
  {
    forall i :: 0 <= i < |xs| ==>
      var y := GetItem(ys, xs[i].key, caseSensitive);
      y.Some? && (MemberNesting(xs, i); FindNesting(ys, xs[i].key, caseSensitive);
                  Same(xs[i].value, y.value, caseSensitive))
  }

  // ---------------------------------------------------------------- meaning

  /** A JSON value without member order: an object is a finite map of its keys, folded to lower case if case does
      not matter. */
  datatype Meaning =
    | MNull
    | MFalse
    | MTrue
    | MNumber(value: real)
    | MString(text: Text)
    | MArray(items: seq<Meaning>)
    | MObject(members: map<Text, Meaning>)

  function Denote(v: Value, caseSensitive: bool): Meaning {
    match v
    case Null => MNull
    case False => MFalse
    case True => MTrue
    case Number(r) => MNumber(r)
    case String(s) => MString(s)
    case Array(items) => MArray(DenoteItems(items, caseSensitive))
    case Object(members) => MObject(DenoteMembers(members, caseSensitive))
  }

  function DenoteItems(items: seq<Value>, caseSensitive: bool): (r: seq<Meaning>)
    ensures |r| == |items| && forall i :: 0 <= i < |items| ==> r[i] == Denote(items[i], caseSensitive)
  {
    if items == [] then [] else [Denote(items[0], caseSensitive)] + DenoteItems(items[1..], caseSensitive)
  }

  /** Of several members with one key the first counts. */
  function DenoteMembers(members: seq<Member>, caseSensitive: bool): map<Text, Meaning> {
    if members == [] then map[]
    else
      var first := members[0];
      DenoteMembers(members[1..], caseSensitive)[Fold(first.key, caseSensitive) := Denote(first.value, caseSensitive)]
  }

  /** No object of v has two members with the same key. */
  predicate DistinctKeys(v: Value) {
    match v
    case Array(items) => forall i :: 0 <= i < |items| ==> DistinctKeys(items[i])
    case Object(members) =>
      (forall i, j :: 0 <= i < j < |members| ==> members[i].key != members[j].key)
      && forall i :: 0 <= i < |members| ==> DistinctKeys(members[i].value)
    case _ => true
  }

  /** No object of v has a member whose value is null. */
  predicate NoNullMembers(v: Value) {
    match v
    case Array(items) => forall i :: 0 <= i < |items| ==> NoNullMembers(items[i])
    case Object(members) =>
      forall i :: 0 <= i < |members| ==> members[i].value != Null && NoNullMembers(members[i].value)
    case _ => true
  }

  lemma {:induction false} FindIsLookup(members: seq<Member>, name: Text, caseSensitive: bool)
    ensures var m, key := DenoteMembers(members, caseSensitive), Fold(name, caseSensitive);
            (key in m <==> Find(members, name, caseSensitive).Some?)
            && (key in m ==> m[key] == Denote(Find(members, name, caseSensitive).value, caseSensitive))
  {
    hide Fold, Denote;
    if members != [] {
      FindIsLookup(members[1..], name, caseSensitive);
    }
  }

  lemma {:induction false} KeysAreMembers(members: seq<Member>, key: Text, caseSensitive: bool) returns (i: nat)
    requires key in DenoteMembers(members, caseSensitive)
    ensures i < |members| && Fold(members[i].key, caseSensitive) == key
  {
    hide Fold, Denote;
    if Fold(members[0].key, caseSensitive) == key {
      i := 0;
    } else {
      i := KeysAreMembers(members[1..], key, caseSensitive);
      i := i + 1;
    }
  }

  lemma {:induction false} FindHasIndex(members: seq<Member>, name: Text, caseSensitive: bool) returns (i: nat)
    requires Find(members, name, caseSensitive).Some?
    ensures i < |members| && KeyMatches(name, members[i].key, caseSensitive)
    ensures Find(members, name, caseSensitive) == Some(members[i].value)
  {
    hide KeyMatches;
    if KeyMatches(name, members[0].key, caseSensitive) {
      i := 0;
    } else {
      i := FindHasIndex(members[1..], name, caseSensitive);
      i := i + 1;
    }
  }

  /** Keys that fold to the same are looked up as the same member. */
  lemma {:induction false} FindFolds(members: seq<Member>, name: Text, other: Text, caseSensitive: bool)
    requires Fold(name, caseSensitive) == Fold(other, caseSensitive)
    ensures Find(members, name, caseSensitive) == Find(members, other, caseSensitive)
  {
    hide Fold;
    if members != [] {
      FindFolds(members[1..], name, other, caseSensitive);
    }
  }

  /** Member i of an object, and the member that its key is looked up as, agree and are not null. */
  predicate OwnLookup(members: seq<Member>, i: nat, caseSensitive: bool)
    requires i < |members|
  {
    var own := GetItem(members, members[i].key, caseSensitive);
    own.Some? && Denote(own.value, caseSensitive) == Denote(members[i].value, caseSensitive)
  }

  /** In every object of v each member is found under its key: the first member with that key is not null and has
      the same meaning. */
  predicate Coherent(v: Value, caseSensitive: bool) {
    match v
    case Array(items) => forall i :: 0 <= i < |items| ==> Coherent(items[i], caseSensitive)
    case Object(members) =>
      forall i :: 0 <= i < |members| ==>
        OwnLookup(members, i, caseSensitive) && Coherent(members[i].value, caseSensitive)
    case _ => true
  }

  /** Both mean the same, and both are coherent. */
  predicate Equal(a: Value, b: Value, caseSensitive: bool) {
    Denote(a, caseSensitive) == Denote(b, caseSensitive) && Coherent(a, caseSensitive) && Coherent(b, caseSensitive)
  }

  /** The comparison of any two values, repeated keys included and in either case mode, succeeds exactly when both
      mean the same and both are coherent. */
  lemma {:induction false} CompareExactly(a: Value, b: Value, caseSensitive: bool)
    ensures Same(a, b, caseSensitive) <==> Equal(a, b, caseSensitive)
    decreases Nesting(a) + Nesting(b), 3
  {
    match (a, b)
    case (Array(xs), Array(ys)) => CompareArrays(xs, ys, caseSensitive);
    case (Object(xs), Object(ys)) => CompareObjects(xs, ys, caseSensitive);
    case _ =>
  }

  lemma {:induction false} CompareArrays(xs: seq<Value>, ys: seq<Value>, caseSensitive: bool)
    ensures Same(Array(xs), Array(ys), caseSensitive) <==> Equal(Array(xs), Array(ys), caseSensitive)
    decreases Nesting(Array(xs)) + Nesting(Array(ys)), 2
  {
    ArraysEqual(xs, ys, caseSensitive);
    hide Equal;
    if |xs| == |ys| {
      forall i | 0 <= i < |xs|
        ensures Same(xs[i], ys[i], caseSensitive) <==> Equal(xs[i], ys[i], caseSensitive)
      {
        ItemNesting(xs, i);
        ItemNesting(ys, i);
        CompareExactly(xs[i], ys[i], caseSensitive);
      }
    }
  }

  lemma ArraysEqual(xs: seq<Value>, ys: seq<Value>, caseSensitive: bool)
    ensures Equal(Array(xs), Array(ys), caseSensitive) <==>
            |xs| == |ys| && forall i :: 0 <= i < |xs| ==> Equal(xs[i], ys[i], caseSensitive)
  {
    assert Equal(Array(xs), Array(ys), caseSensitive) <==>
           DenoteItems(xs, caseSensitive) == DenoteItems(ys, caseSensitive)
           && (forall i :: 0 <= i < |xs| ==> Coherent(xs[i], caseSensitive))
           && forall i :: 0 <= i < |ys| ==> Coherent(ys[i], caseSensitive);
    ItemsDenoteSame(xs, ys, caseSensitive);
    hide Denote, Coherent, DenoteItems;
  }

  lemma ItemsDenoteSame(xs: seq<Value>, ys: seq<Value>, caseSensitive: bool)
    ensures DenoteItems(xs, caseSensitive) == DenoteItems(ys, caseSensitive) <==>
            |xs| == |ys| && forall i :: 0 <= i < |xs| ==> Denote(xs[i], caseSensitive) == Denote(ys[i], caseSensitive)
  {
    hide Denote;
  }

  /** Member i of xs is looked up in ys and found the same. */
  ghost predicate Met(xs: seq<Member>, i: nat, ys: seq<Member>, caseSensitive: bool)
    requires i < |xs|
  {
    var y := GetItem(ys, xs[i].key, caseSensitive);
    y.Some? && Equal(xs[i].value, y.value, caseSensitive)
  }

  lemma {:induction false} CoveredExactly(xs: seq<Member>, ys: seq<Member>, caseSensitive: bool)
    ensures Covered(xs, ys, caseSensitive) <==> forall i: nat :: i < |xs| ==> Met(xs, i, ys, caseSensitive)
    decreases MembersNesting(xs) + MembersNesting(ys) + 1, 4
  {
    hide Equal, Find;
    forall i: nat | i < |xs|
      ensures var y := GetItem(ys, xs[i].key, caseSensitive);
              y.Some? && Same(xs[i].value, y.value, caseSensitive) <==> Met(xs, i, ys, caseSensitive)
    {
      MemberNesting(xs, i);
      FindNesting(ys, xs[i].key, caseSensitive);
      var y := GetItem(ys, xs[i].key, caseSensitive);
      if y.Some? {
        CompareExactly(xs[i].value, y.value, caseSensitive);
      }
    }
  }

  lemma {:induction false} CompareObjects(xs: seq<Member>, ys: seq<Member>, caseSensitive: bool)
    ensures Same(Object(xs), Object(ys), caseSensitive) <==> Equal(Object(xs), Object(ys), caseSensitive)
    decreases Nesting(Object(xs)) + Nesting(Object(ys)), 2
  {
    CoveredExactly(xs, ys, caseSensitive);
    CoveredExactly(ys, xs, caseSensitive);
    hide Same, Covered, Met, Coherent, Find, DenoteMembers;
    if Covered(xs, ys, caseSensitive) && Covered(ys, xs, caseSensitive) {
      MetMeansSame(xs, ys, caseSensitive);
      MetMeansSame(ys, xs, caseSensitive);
      EqualMaps(xs, ys, caseSensitive);
    }
    if Equal(Object(xs), Object(ys), caseSensitive) {
      SameMeansMet(xs, ys, caseSensitive);
      SameMeansMet(ys, xs, caseSensitive);
    }
    CompareObjectsEnd(xs, ys, caseSensitive);
  }

  lemma CompareObjectsEnd(xs: seq<Member>, ys: seq<Member>, caseSensitive: bool)
    ensures Same(Object(xs), Object(ys), caseSensitive) <==>
            Covered(xs, ys, caseSensitive) && Covered(ys, xs, caseSensitive)
  {
  }

  /** If each looks the other's members up, a member and its own first match are found as the same. */
  lemma MetMeansSame(xs: seq<Member>, ys: seq<Member>, caseSensitive: bool)
    requires forall i: nat :: i < |xs| ==> Met(xs, i, ys, caseSensitive)
    requires forall j: nat :: j < |ys| ==> Met(ys, j, xs, caseSensitive)
    ensures Coherent(Object(xs), caseSensitive)
    ensures Submap(DenoteMembers(xs, caseSensitive), DenoteMembers(ys, caseSensitive))
  {
    hide Find, DenoteMembers, Coherent, Fold;
    forall i: nat | i < |xs|
      ensures OwnLookup(xs, i, caseSensitive) && Coherent(xs[i].value, caseSensitive)
    {
      assert Met(xs, i, ys, caseSensitive);
      var j := FindHasIndex(ys, xs[i].key, caseSensitive);
      assert Met(ys, j, xs, caseSensitive);
      FindFolds(xs, xs[i].key, ys[j].key, caseSensitive);
      var k := FindHasIndex(xs, xs[i].key, caseSensitive);
      assert Met(xs, k, ys, caseSensitive);
      FindFolds(ys, xs[i].key, xs[k].key, caseSensitive);
    }
    ObjectCoherent(xs, caseSensitive);
    forall key | key in DenoteMembers(xs, caseSensitive)
      ensures key in DenoteMembers(ys, caseSensitive)
              && DenoteMembers(xs, caseSensitive)[key] == DenoteMembers(ys, caseSensitive)[key]
    {
      var n := KeysAreMembers(xs, key, caseSensitive);
      FindIsLookup(xs, xs[n].key, caseSensitive);
      FindIsLookup(ys, xs[n].key, caseSensitive);
      var i := FindHasIndex(xs, xs[n].key, caseSensitive);
      assert Met(xs, i, ys, caseSensitive);
      FindFolds(ys, xs[n].key, xs[i].key, caseSensitive);
    }
  }

  lemma ObjectCoherent(xs: seq<Member>, caseSensitive: bool)
    ensures Coherent(Object(xs), caseSensitive) <==>
            forall i: nat :: i < |xs| ==> OwnLookup(xs, i, caseSensitive) && Coherent(xs[i].value, caseSensitive)
  {
    hide OwnLookup;
  }

  lemma EqualMaps(xs: seq<Member>, ys: seq<Member>, caseSensitive: bool)
    requires Submap(DenoteMembers(xs, caseSensitive), DenoteMembers(ys, caseSensitive))
    requires Submap(DenoteMembers(ys, caseSensitive), DenoteMembers(xs, caseSensitive))
    ensures Denote(Object(xs), caseSensitive) == Denote(Object(ys), caseSensitive)
  {
    hide DenoteMembers;
    assert DenoteMembers(xs, caseSensitive) == DenoteMembers(ys, caseSensitive);
  }

  lemma SameMeansMet(xs: seq<Member>, ys: seq<Member>, caseSensitive: bool)
    requires Equal(Object(xs), Object(ys), caseSensitive)
    ensures forall i: nat :: i < |xs| ==> Met(xs, i, ys, caseSensitive)
  {
    ObjectCoherent(xs, caseSensitive);
    ObjectCoherent(ys, caseSensitive);
    hide Find, DenoteMembers, Coherent, Fold;
    forall i: nat | i < |xs|
      ensures Met(xs, i, ys, caseSensitive)
    {
      assert OwnLookup(xs, i, caseSensitive);
      FindIsLookup(xs, xs[i].key, caseSensitive);
      FindIsLookup(ys, xs[i].key, caseSensitive);
      var j := FindHasIndex(ys, xs[i].key, caseSensitive);
      assert OwnLookup(ys, j, caseSensitive);
      FindFolds(ys, xs[i].key, ys[j].key, caseSensitive);
    }
  }

  lemma {:induction false} FindOwnKey(members: seq<Member>, i: nat)
    requires i < |members|
    requires forall j, k :: 0 <= j < k < |members| ==> members[j].key != members[k].key
    ensures Find(members, members[i].key, true) == Some(members[i].value)
  {
    if i > 0 {
      FindOwnKey(members[1..], i - 1);
    }
  }

  ghost predicate Submap(m: map<Text, Meaning>, n: map<Text, Meaning>) {
    forall k :: k in m ==> k in n && m[k] == n[k]
  }

  /** With distinct keys coherence says that no member is null. */
  lemma {:induction false} CoherentExactly(v: Value)
    requires DistinctKeys(v)
    ensures Coherent(v, true) <==> NoNullMembers(v)
    decreases Nesting(v)
  {
    match v
    case Array(items) =>
      forall i | 0 <= i < |items| ensures Coherent(items[i], true) <==> NoNullMembers(items[i]) {
        ItemNesting(items, i);
        CoherentExactly(items[i]);
      }
    case Object(members) =>
      forall i | 0 <= i < |members|
        ensures OwnLookup(members, i, true) && Coherent(members[i].value, true)
                <==> members[i].value != Null && NoNullMembers(members[i].value)
      {
        MemberNesting(members, i);
        CoherentExactly(members[i].value);
        FindOwnKey(members, i);
      }
    case _ =>
  }

  /** Whether an object has a null member depends only on the meaning. */
  lemma {:induction false} NullsAgree(a: Value, b: Value)
    requires DistinctKeys(a) && DistinctKeys(b) && Denote(a, true) == Denote(b, true) && NoNullMembers(a)
    ensures NoNullMembers(b)
    decreases Nesting(b)
  {
    match b
    case Array(ys) =>
      forall i | 0 <= i < |ys| ensures NoNullMembers(ys[i]) {
        ItemNesting(ys, i);
        assert DenoteItems(a.items, true)[i] == DenoteItems(ys, true)[i];
        NullsAgree(a.items[i], ys[i]);
      }
    case Object(ys) =>
      forall j | 0 <= j < |ys| ensures ys[j].value != Null && NoNullMembers(ys[j].value) {
        FindOwnKey(ys, j);
        FindIsLookup(ys, ys[j].key, true);
        FindIsLookup(a.members, ys[j].key, true);
        var i := FindHasIndex(a.members, ys[j].key, true);
        MemberNesting(ys, j);
        NullsAgree(a.members[i].value, ys[j].value);
      }
    case _ =>
  }

  /** The case-sensitive comparison of values with distinct keys succeeds exactly when both mean the
      same and no object member is null. */
  lemma CompareIsEquality(a: Value, b: Value)
    requires DistinctKeys(a) && DistinctKeys(b)
    ensures Same(a, b, true) <==> Denote(a, true) == Denote(b, true) && NoNullMembers(a)
  {
    hide Same, Denote, Coherent, NoNullMembers, DistinctKeys;
    CompareExactly(a, b, true);
    CoherentExactly(a);
    CoherentExactly(b);
    if Denote(a, true) == Denote(b, true) && NoNullMembers(a) {
      NullsAgree(a, b);
    }
  }

  /** An object with a null member, or with two different members of one key, does not even compare equal to itself. */
  lemma NotSelfEqual(k: Text, caseSensitive: bool)
    ensures var null_, twice := Object([Member(k, Null)]), Object([Member(k, True), Member(k, False)]);
            !Same(null_, null_, caseSensitive) && !Same(twice, twice, caseSensitive)
  {
    var null_, twice := Object([Member(k, Null)]), Object([Member(k, True), Member(k, False)]);
    CompareExactly(null_, null_, caseSensitive);
    CompareExactly(twice, twice, caseSensitive);
    hide Same;
    assert !OwnLookup([Member(k, Null)], 0, caseSensitive);
    assert !OwnLookup([Member(k, True), Member(k, False)], 1, caseSensitive);
  }

  // ---------------------------------------------------------------- without maps and lookups

  /** The same value, but for the order of the members of its objects. */
  ghost predicate Rearranged(a: Value, b: Value)
    decreases a
  {
    match (a, b)
    case (Array(xs), Array(ys)) => |xs| == |ys| && forall i :: 0 <= i < |xs| ==> Rearranged(xs[i], ys[i])
    case (Object(xs), Object(ys)) =>
      (forall i :: 0 <= i < |xs| ==> HasTwin(xs[i], ys)) && forall j :: 0 <= j < |ys| ==> HasKey(xs, ys[j].key)
    case _ => a == b
  }

  /** Some member of ys has the key of m and its value rearranged. */
  ghost predicate HasTwin(m: Member, ys: seq<Member>)
    decreases m
  {
    exists j :: 0 <= j < |ys| && m.key == ys[j].key && Rearranged(m.value, ys[j].value)
  }

  ghost predicate HasKey(xs: seq<Member>, key: Text) { exists i :: 0 <= i < |xs| && xs[i].key == key }

  lemma OwnMeaning(members: seq<Member>, i: nat)
    requires i < |members| && DistinctKeys(Object(members))
    ensures var m := DenoteMembers(members, true);
            members[i].key in m && m[members[i].key] == Denote(members[i].value, true)
  {
    FindOwnKey(members, i);
    FindIsLookup(members, members[i].key, true);
  }

  /** With distinct keys two values mean the same exactly if one is the other rearranged. */
  lemma {:induction false} SameMeaningExactly(a: Value, b: Value)
    requires DistinctKeys(a) && DistinctKeys(b)
    ensures Denote(a, true) == Denote(b, true) <==> Rearranged(a, b)
    decreases Nesting(a), 1
  {
    match (a, b)
    case (Array(xs), Array(ys)) =>
      ItemsDenoteSame(xs, ys, true);
      if |xs| == |ys| {
        forall i | 0 <= i < |xs|
          ensures Denote(xs[i], true) == Denote(ys[i], true) <==> Rearranged(xs[i], ys[i])
        {
          ItemNesting(xs, i);
          SameMeaningExactly(xs[i], ys[i]);
        }
      }
    case (Object(xs), Object(ys)) => SameObjectExactly(xs, ys);
    case _ =>
  }

  /** Some member of ys has the key of m and a value that means the same. */
  ghost predicate HasPartner(m: Member, ys: seq<Member>) {
    exists j :: 0 <= j < |ys| && m.key == ys[j].key && Denote(m.value, true) == Denote(ys[j].value, true)
  }

  lemma TwinIsPartner(m: Member, ys: seq<Member>)
    requires forall j :: 0 <= j < |ys| ==>
               (Denote(m.value, true) == Denote(ys[j].value, true) <==> Rearranged(m.value, ys[j].value))
    ensures HasPartner(m, ys) <==> HasTwin(m, ys)
  {
    hide Denote, Rearranged;
  }

  lemma {:induction false} SameObjectExactly(xs: seq<Member>, ys: seq<Member>)
    requires DistinctKeys(Object(xs)) && DistinctKeys(Object(ys))
    ensures Denote(Object(xs), true) == Denote(Object(ys), true) <==> Rearranged(Object(xs), Object(ys))
    decreases Nesting(Object(xs)), 0
  {
    hide HasPartner, HasTwin, DenoteMembers, HasKey;
    forall i | 0 <= i < |xs| ensures HasPartner(xs[i], ys) <==> HasTwin(xs[i], ys) {
      MemberNesting(xs, i);
      forall j | 0 <= j < |ys|
        ensures Denote(xs[i].value, true) == Denote(ys[j].value, true) <==> Rearranged(xs[i].value, ys[j].value)
      {
        SameMeaningExactly(xs[i].value, ys[j].value);
      }
      TwinIsPartner(xs[i], ys);
    }
    if Denote(Object(xs), true) == Denote(Object(ys), true) {
      SharedKeys(xs, ys);
    }
    if Rearranged(Object(xs), Object(ys)) {
      KeysMatch(xs, ys);
    }
  }

  /** In equal maps every member of xs has a partner in ys, and every key of ys is one of xs. */
  lemma SharedKeys(xs: seq<Member>, ys: seq<Member>)
    requires DistinctKeys(Object(xs)) && DistinctKeys(Object(ys)) && DenoteMembers(xs, true) == DenoteMembers(ys, true)
    ensures forall i :: 0 <= i < |xs| ==> HasPartner(xs[i], ys)
    ensures forall j :: 0 <= j < |ys| ==> HasKey(xs, ys[j].key)
  {
    hide DenoteMembers, Denote, DistinctKeys;
    forall i | 0 <= i < |xs| ensures HasPartner(xs[i], ys) {
      OwnMeaning(xs, i);
      var j := KeysAreMembers(ys, xs[i].key, true);
      OwnMeaning(ys, j);
    }
    forall j | 0 <= j < |ys| ensures HasKey(xs, ys[j].key) {
      OwnMeaning(ys, j);
      var i := KeysAreMembers(xs, ys[j].key, true);
    }
  }

  /** If every member of xs has a partner in ys and ys has no other keys, the maps are equal. */
  lemma KeysMatch(xs: seq<Member>, ys: seq<Member>)
    requires DistinctKeys(Object(xs)) && DistinctKeys(Object(ys))
    requires forall i :: 0 <= i < |xs| ==> HasPartner(xs[i], ys)
    requires forall j :: 0 <= j < |ys| ==> HasKey(xs, ys[j].key)
    ensures DenoteMembers(xs, true) == DenoteMembers(ys, true)
  {
    hide DenoteMembers, Denote, DistinctKeys;
    forall key | key in DenoteMembers(xs, true)
      ensures key in DenoteMembers(ys, true) && DenoteMembers(xs, true)[key] == DenoteMembers(ys, true)[key]
    {
      var i := KeysAreMembers(xs, key, true);
      OwnMeaning(xs, i);
      var j :| 0 <= j < |ys| && xs[i].key == ys[j].key && Denote(xs[i].value, true) == Denote(ys[j].value, true);
      OwnMeaning(ys, j);
    }
    forall key | key in DenoteMembers(ys, true)
      ensures key in DenoteMembers(xs, true)
    {
      var j := KeysAreMembers(ys, key, true);
      var i :| 0 <= i < |xs| && xs[i].key == ys[j].key;
      OwnMeaning(xs, i);
    }
  }

  /** The case-sensitive comparison of values with distinct keys succeeds if and only if one is the other rearranged
      and no object member is null. */
  lemma CompareIsRearrangement(a: Value, b: Value)
    requires DistinctKeys(a) && DistinctKeys(b)
    ensures Same(a, b, true) <==> Rearranged(a, b) && NoNullMembers(a)
  {
    hide Same, Denote, Rearranged, NoNullMembers, DistinctKeys;
    CompareIsEquality(a, b);
    SameMeaningExactly(a, b);
  }

  /** Keys match if they are equal byte for byte or, if case does not matter, up to the case of ASCII letters. */
  lemma {:induction false} KeysMatchExactly(x: Text, y: Text, caseSensitive: bool)
    ensures KeyMatches(x, y, caseSensitive) <==>
            |x| == |y| && forall k :: 0 <= k < |x| ==>
              x[k] == y[k] || (!caseSensitive && ((65 <= x[k] <= 90 && y[k] == x[k] + 32)
                                                  || (97 <= x[k] <= 122 && y[k] == x[k] - 32)))
  {
    LowerBytes(x);
    LowerBytes(y);
    hide Lower;
    if Lower(x) == Lower(y) {
      assert forall k :: 0 <= k < |x| ==> Lower(x)[k] == Lower(y)[k];
    }
  }

  lemma {:induction false} LowerBytes(x: Text)
    ensures |Lower(x)| == |x|
    ensures forall k :: 0 <= k < |x| ==> Lower(x)[k] == if 65 <= x[k] <= 90 then x[k] + 32 else x[k]
  {
    if x != [] {
      LowerBytes(x[1..]);
    }
  }
}
