/** The parser of 3rdparty/cjson/cJSON.c accepts exactly the texts of JsonSyntax and reads what is written there. */
module JsonReading {
  import opened Bytes
  import opened Decimals
  import opened Json
  import opened JsonString
  import opened JsonNumber
  import opened JsonGrammar
  import opened JsonSyntax
  import opened JsonUnicode
  import opened JsonNumeral

  /** The result of reading a value that needs `needed` levels when depth are already open. */
  function Within<T>(depth: nat, needed: nat, value: T, end: nat): Parsed<T> {
    if depth + needed <= 1000 then Parsed(value, end) else Rejected
  }

  // ---------------------------------------------------------------- white space

  lemma SkipStops(s: Text, i: nat)
    ensures i < |s| && (i == |s| - 1 || s[i] > SPACE) ==> Skip(s, i) == i
    ensures i < |s| - 1 && s[i] <= SPACE ==> Skip(s, i) == Skip(s, i + 1)
  {
  }

  /** A gap is skipped. */
  lemma {:induction false} ReadGap(s: Text, i: nat, g: Gap)
    requires IsGap(g, false) && At(s, i, GapText(g))
    requires var e := i + |GapText(g)|; e < |s| && (e == |s| - 1 || s[e] > SPACE)
    ensures Skip(s, i) == i + |GapText(g)|
    decreases |g|
  {
    hide Skip, At;
    SkipStops(s, i);
    if g != [] {
      AtConcat(s, i, ChunkText(g[0]), GapText(g[1..]));
      AtByte(s, i, ChunkText(g[0]), 0);
      ReadGap(s, i + 1, g[1..]);
    }
  }

  /** What is skipped is a gap. */
  lemma {:induction false} GapRead(s: Text, i: nat) returns (g: Gap)
    requires i < |s|
    ensures IsGap(g, false) && At(s, i, GapText(g)) && Skip(s, i) == i + |GapText(g)|
    decreases |s| - i
  {
    hide Skip;
    SkipStops(s, i);
    g := [];
    if i < |s| - 1 && s[i] <= SPACE {
      g := GapRead(s, i + 1);
      assert At(s, i, [s[i]]);
      hide At;
      AtAppend(s, i, [s[i]], GapText(g));
      g := [Space(s[i])] + g;
    }
  }

  // ---------------------------------------------------------------- the texts are read

  /** A value starts with a visible byte that is no closing bracket. */
  lemma DocStart(d: Doc)
    requires IsDoc(d, false)
    ensures var t := DocText(d); t != [] && SPACE < t[0] < 128 && t[0] != RBRACKET && t[0] != RBRACE
  {
    if d.NumberDoc? {
      NumeralStart(d.numeral);
    }
    hide NumeralText, Body, GapText, ItemsText, MembersText, IsNumeral;
  }

  lemma NumeralStart(n: Numeral)
    requires IsNumeral(n)
    ensures var t := NumeralText(n); t != [] && (t[0] == MINUS || IsDigit(t[0]))
  {
    hide ExponentText;
  }

  lemma Followed(s: Text, i: nat, n: Numeral)
    requires IsNumeral(n) && At(s, i, NumeralText(n))
    requires var e := i + |NumeralText(n)|; e < |s| && !IsNumberByte(s[e])
    ensures Foremost(s, i, n)
  {
    hide NumeralText;
    forall m: Numeral | IsNumeral(m) && At(s, i, NumeralText(m))
      ensures |NumeralText(m)| <= |NumeralText(n)|
    {
      if |NumeralText(m)| > |NumeralText(n)| {
        AtByte(s, i, NumeralText(m), |NumeralText(n)|);
        NumeralBytes(m, |NumeralText(n)|);
      }
    }
  }

  lemma KeywordStart(s: Text, i: nat)
    requires i < |s|
    ensures At(s, i, NULL_TEXT) ==> s[i] == 110
    ensures At(s, i, FALSE_TEXT) ==> s[i] == 102
    ensures At(s, i, TRUE_TEXT) ==> s[i] == 116
  {
    if At(s, i, NULL_TEXT) { AtByte(s, i, NULL_TEXT, 0); }
    if At(s, i, FALSE_TEXT) { AtByte(s, i, FALSE_TEXT, 0); }
    if At(s, i, TRUE_TEXT) { AtByte(s, i, TRUE_TEXT, 0); }
  }

  /** Which rule the first byte of a value selects. */
  lemma RuleAt(s: Text, i: nat, depth: nat)
    requires Terminated(s) && i < |s|
    ensures At(s, i, NULL_TEXT) ==> ParseValue(s, i, depth) == Parsed(Null, i + 4)
    ensures At(s, i, FALSE_TEXT) ==> ParseValue(s, i, depth) == Parsed(False, i + 5)
    ensures At(s, i, TRUE_TEXT) ==> ParseValue(s, i, depth) == Parsed(True, i + 4)
    ensures s[i] == QUOTE ==>
              var r := ParseString(s, i);
              ParseValue(s, i, depth) == if r.Parsed? then Parsed(String(r.value), r.end) else Rejected
    ensures s[i] == MINUS || IsDigit(s[i]) ==> ParseValue(s, i, depth) == ParseNumber(s, i)
    ensures s[i] == LBRACKET ==> ParseValue(s, i, depth) == ParseArray(s, i, depth)
    ensures s[i] == LBRACE ==> ParseValue(s, i, depth) == ParseObject(s, i, depth)
    ensures ParseValue(s, i, depth).Parsed? ==>
              At(s, i, NULL_TEXT) || At(s, i, FALSE_TEXT) || At(s, i, TRUE_TEXT)
              || s[i] == QUOTE || s[i] == MINUS || IsDigit(s[i]) || s[i] == LBRACKET || s[i] == LBRACE
  {
    hide ParseArray, ParseObject, ParseNumber, ParseString;
    KeywordStart(s, i);
    assert At(s, i, FALSE_TEXT) ==> !At(s, i, NULL_TEXT);
    assert At(s, i, TRUE_TEXT) ==> !At(s, i, NULL_TEXT) && !At(s, i, FALSE_TEXT);
  }

  lemma NoLevels(v: Value)
    ensures !v.Array? && !v.Object? ==> Nesting(v) == 0
  {
  }

  /** Words, numbers and strings. */
  lemma ReadScalar(s: Text, i: nat, d: Doc, depth: nat)
    requires Terminated(s) && IsDoc(d, false) && At(s, i, DocText(d)) && !d.ArrayDoc? && !d.ObjectDoc? && i < |s|
    requires d.NumberDoc? ==> Foremost(s, i, d.numeral)
    ensures ParseValue(s, i, depth) == Parsed(DocValue(d), i + |DocText(d)|)
  {
    RuleAt(s, i, depth);
    hide At, ParseValue, ParseString, ParseNumber, ParseArray, ParseObject, Foremost, NumeralText, NumeralValue,
      LiteralValue, IsLiteral;
    match d
    case NumberDoc(n) => ReadNumber(s, i, n);
    case StringDoc(ps) =>
      IsLiteralMeans(ps);
      ParsePieces(s, i, ps);
      AtByte(s, i, LiteralText(ps), 0);
    case _ =>
  }

  /** Wherever the text of a value stands, with the whole of its number if it is one, the parser reads the value and
      stops behind the text, or rejects it if it nests too deep. */
  lemma {:induction false} ReadDoc(s: Text, i: nat, d: Doc, depth: nat)
    requires Terminated(s) && IsDoc(d, false) && At(s, i, DocText(d)) && depth <= 1000
    requires d.NumberDoc? ==> Foremost(s, i, d.numeral)
    ensures i < |s| && ParseValue(s, i, depth) == Within(depth, Nesting(DocValue(d)), DocValue(d), i + |DocText(d)|)
    decreases d, 3
  {
    hide *;
    DocStart(d);
    DocParts(d);
    AtByte(s, i, DocText(d), 0);
    if d.ArrayDoc? {
      RuleAt(s, i, depth);
      ReadArray(s, i, d.inner, d.items, depth);
    } else if d.ObjectDoc? {
      RuleAt(s, i, depth);
      ReadObject(s, i, d.inner, d.members, depth);
    } else {
      ReadScalar(s, i, d, depth);
      NoLevels(DocValue(d));
      NoneNeeded(depth, DocValue(d), i + |DocText(d)|);
    }
  }

  lemma NoneNeeded<T>(depth: nat, v: T, end: nat)
    ensures depth <= 1000 ==> Within(depth, 0, v, end) == Parsed(v, end)
  {
  }

  lemma DocParts(d: Doc)
    requires IsDoc(d, false)
    ensures d.ArrayDoc? ==> IsGap(d.inner, false) && AreItems(d.items, false) && DocText(d)[0] == LBRACKET
                            && d == ArrayDoc(d.inner, d.items) && DocValue(d) == Array(ItemValues(d.items))
    ensures d.ObjectDoc? ==> IsGap(d.inner, false) && AreMembers(d.members, false) && DocText(d)[0] == LBRACE
                             && d == ObjectDoc(d.inner, d.members) && DocValue(d) == Object(MemberValues(d.members))
    ensures !d.ArrayDoc? && !d.ObjectDoc? ==> !DocValue(d).Array? && !DocValue(d).Object?
  {
    hide ItemsText, MembersText, ItemValues, MemberValues, AreItems, AreMembers, GapText;
  }

  lemma IsLiteralMeans(ps: seq<Piece>)
    requires IsLiteral(ps)
    ensures ArePieces(ps) && Scanned(Body(ps, 0)) && !exists k :: 0 <= k < |ps| && Unpaired(ps, k)
  {
  }

  lemma ArrayParts(s: Text, i: nat, inner: Gap, items: seq<ItemDoc>)
    requires At(s, i, DocText(ArrayDoc(inner, items)))
    ensures items == [] ==>
              At(s, i + 1, GapText(inner)) && var e := i + 1 + |GapText(inner)|; e < |s| && s[e] == RBRACKET
    ensures items == [] ==> |DocText(ArrayDoc(inner, items))| == |GapText(inner)| + 2
    ensures items != [] ==> At(s, i + 1, ItemsText(items))
    ensures items != [] ==> |DocText(ArrayDoc(inner, items))| == |ItemsText(items)| + 1
  {
    hide At, ItemsText, GapText;
    AtConcat(s, i, [LBRACKET], if items == [] then GapText(inner) + [RBRACKET] else ItemsText(items));
    if items == [] {
      AtConcat(s, i + 1, GapText(inner), [RBRACKET]);
      AtByte(s, i + 1 + |GapText(inner)|, [RBRACKET], 0);
    }
  }

  lemma {:induction false} ReadArray(s: Text, i: nat, inner: Gap, items: seq<ItemDoc>, depth: nat)
    requires Terminated(s) && IsGap(inner, false) && AreItems(items, false) && depth <= 1000
    requires At(s, i, DocText(ArrayDoc(inner, items))) && i < |s| && s[i] == LBRACKET
    ensures var v := Array(ItemValues(items));
            ParseArray(s, i, depth) == Within(depth, Nesting(v), v, i + |DocText(ArrayDoc(inner, items))|)
    decreases items, 3
  {
    hide At, ParseItems, Skip, DocText, ItemsText, GapText, AreItems, ItemsNesting;
    ArrayParts(s, i, inner, items);
    if items == [] {
      NothingInside();
      ReadGap(s, i + 1, inner);
    } else {
      ItemsStart(s, i + 1, items);
      if depth < 1000 {
        ReadItems(s, i + 1, items, depth + 1);
      }
    }
  }

  lemma NothingInside()
    ensures ItemsNesting([]) == 0 && MembersNesting([]) == 0 && ItemValues([]) == [] && MemberValues([]) == []
  {
  }

  /** Behind the gap of an element comes its value. */
  lemma ItemsStart(s: Text, i: nat, items: seq<ItemDoc>)
    requires Terminated(s) && items != [] && AreItems(items, false) && At(s, i, ItemsText(items))
    ensures i < |s| && s[Skip(s, i)] != RBRACKET
  {
    hide At, Skip, GapText, DocText, IsDoc, Terminated, ItemText;
    var x := items[0];
    ItemsParts(s, i, items);
    ItemParts(s, i, x);
    DocStart(x.value);
    AtByte(s, i + |GapText(x.before)|, DocText(x.value), 0);
    ReadGap(s, i, x.before);
  }

  lemma ItemParts(s: Text, i: nat, x: ItemDoc)
    requires At(s, i, ItemText(x))
    ensures var p := i + |GapText(x.before)|;
            var q := p + |DocText(x.value)|;
            At(s, i, GapText(x.before)) && At(s, p, DocText(x.value)) && At(s, q, GapText(x.after))
            && i + |ItemText(x)| == q + |GapText(x.after)|
  {
    hide At, GapText, DocText;
    AtConcat(s, i, GapText(x.before), DocText(x.value) + GapText(x.after));
    AtConcat(s, i + |GapText(x.before)|, DocText(x.value), GapText(x.after));
  }

  /** The byte behind a value, a gap or a bracket or comma, cannot belong to a number. */
  lemma GapEndsNumber(s: Text, q: nat, g: Gap)
    requires IsGap(g, false) && At(s, q, GapText(g))
    requires var e := q + |GapText(g)|; e < |s| && (s[e] == COMMA || s[e] == RBRACKET || s[e] == RBRACE)
    ensures !IsNumberByte(s[q])
  {
    if g != [] {
      assert s[q + 0] == GapText(g)[0];
    }
  }

  /** A value and the gap behind it. */
  lemma {:induction false} ReadValue(s: Text, p: nat, d: Doc, g: Gap, depth: nat)
    requires Terminated(s) && IsDoc(d, false) && IsGap(g, false) && depth <= 1000
    requires At(s, p, DocText(d)) && At(s, p + |DocText(d)|, GapText(g))
    requires var e := p + |DocText(d)| + |GapText(g)|; e < |s| && (s[e] == COMMA || s[e] == RBRACKET || s[e] == RBRACE)
    ensures var q := p + |DocText(d)|;
            ParseValue(s, p, depth) == Within(depth, Nesting(DocValue(d)), DocValue(d), q)
            && q < |s| && Skip(s, q) == q + |GapText(g)|
    decreases d, 4
  {
    hide At, Skip, GapText, IsDoc, Terminated, ParseValue, Nesting, DocValue;
    var q := p + |DocText(d)|;
    GapEndsNumber(s, q, g);
    ReadGap(s, q, g);
    if d.NumberDoc? {
      assert IsNumeral(d.numeral) by {
        NumberIsNumeral(d);
      }
      Followed(s, p, d.numeral);
    }
    ReadDoc(s, p, d, depth);
  }

  lemma NumberIsNumeral(d: Doc)
    ensures d.NumberDoc? && IsDoc(d, false) ==> IsNumeral(d.numeral)
  {
  }

  lemma {:induction false} ReadItem(s: Text, i: nat, x: ItemDoc, depth: nat)
    requires Terminated(s) && IsItem(x, false) && At(s, i, ItemText(x)) && depth <= 1000
    requires var e := i + |ItemText(x)|; e < |s| && (s[e] == COMMA || s[e] == RBRACKET)
    ensures var p := Skip(s, i);
            ParseValue(s, p, depth) ==
              Within(depth, Nesting(DocValue(x.value)), DocValue(x.value), p + |DocText(x.value)|)
            && p + |DocText(x.value)| < |s| && Skip(s, p + |DocText(x.value)|) == i + |ItemText(x)|
    decreases x, 5
  {
    hide At, Skip, GapText, DocText, IsDoc, Terminated, ParseValue, Nesting, DocValue, ItemText, Within;
    ItemParts(s, i, x);
    DocStart(x.value);
    var p := i + |GapText(x.before)|;
    AtByte(s, p, DocText(x.value), 0);
    ReadGap(s, i, x.before);
    ReadValue(s, p, x.value, x.after, depth);
  }

  lemma ItemsParts(s: Text, i: nat, items: seq<ItemDoc>)
    requires items != [] && At(s, i, ItemsText(items))
    ensures var e := i + |ItemText(items[0])|;
            At(s, i, ItemText(items[0])) && e < |s|
            && (|items| == 1 ==> s[e] == RBRACKET && i + |ItemsText(items)| == e + 1)
            && (|items| > 1 ==> s[e] == COMMA && At(s, e + 1, ItemsText(items[1..]))
                                && i + |ItemsText(items)| == e + 1 + |ItemsText(items[1..])|)
  {
    hide At, ItemText;
    var e := i + |ItemText(items[0])|;
    if |items| == 1 {
      AtConcat(s, i, ItemText(items[0]), [RBRACKET]);
      AtByte(s, e, [RBRACKET], 0);
    } else {
      var rest := ItemsText(items[1..]);
      AtConcat(s, i, ItemText(items[0]), [COMMA] + rest);
      AtConcat(s, e, [COMMA], rest);
      AtByte(s, e, [COMMA], 0);
    }
  }

  lemma {:induction false} ReadItems(s: Text, i: nat, items: seq<ItemDoc>, depth: nat)
    requires Terminated(s) && items != [] && AreItems(items, false) && At(s, i, ItemsText(items)) && depth <= 1000
    ensures i < |s| && var vs := ItemValues(items);
            ParseItems(s, i, depth) == Within(depth, ItemsNesting(vs), vs, i + |ItemsText(items)|)
    decreases items, 2
  {
    hide At, Skip, DocText, IsDoc, Terminated, ParseValue, ParseItems, Nesting, DocValue, ItemText, ItemsText,
      ItemValues, ItemsNesting;
    ItemsParts(s, i, items);
    ReadItem(s, i, items[0], depth);
    var v, q := DocValue(items[0].value), Skip(s, i) + |DocText(items[0].value)|;
    FirstValue(items);
    if |items| == 1 {
      assert [v] + [] == [v];
      ParseLastItem(s, i, v, q, depth);
    } else {
      ReadItems(s, i + |ItemText(items[0])| + 1, items[1..], depth);
      ParseNextItem(s, i, v, q, depth);
      WithinBoth(v, q, ItemValues(items[1..]), i + |ItemsText(items)|, depth);
    }
  }

  lemma FirstValue(items: seq<ItemDoc>)
    requires items != []
    ensures ItemValues(items) == [DocValue(items[0].value)] + ItemValues(items[1..])
    ensures |items| == 1 ==> ItemValues(items[1..]) == []
  {
    hide Nesting, DocValue;
  }

  lemma ParseLastItem(s: Text, i: nat, v: Value, q: nat, depth: nat)
    requires Terminated(s) && i < |s| && q < |s| && s[Skip(s, q)] == RBRACKET
    requires ParseValue(s, Skip(s, i), depth) == Within(depth, Nesting(v), v, q)
    ensures ParseItems(s, i, depth) == Within(depth, ItemsNesting([v]), [v], Skip(s, q) + 1)
  {
    hide Skip, ParseValue, Nesting, Terminated;
    NothingInside();
    assert [v][1..] == [];
  }

  /** r with x in front of what was read. */
  function Prefixed<T>(x: T, r: Parsed<seq<T>>): Parsed<seq<T>> {
    match r
    case Rejected => Rejected
    case Parsed(xs, e) => Parsed([x] + xs, e)
  }

  lemma ParseNextItem(s: Text, i: nat, v: Value, q: nat, depth: nat)
    requires Terminated(s) && i < |s| && q < |s| && Skip(s, q) + 1 < |s| && s[Skip(s, q)] == COMMA
    ensures ParseValue(s, Skip(s, i), depth) == Parsed(v, q) ==>
              ParseItems(s, i, depth) == Prefixed(v, ParseItems(s, Skip(s, q) + 1, depth))
    ensures ParseValue(s, Skip(s, i), depth) == Rejected ==> ParseItems(s, i, depth) == Rejected
  {
    hide Skip, ParseValue, Terminated;
  }

  lemma WithinBoth(v: Value, q: nat, vs: seq<Value>, end: nat, depth: nat)
    ensures Within(depth, ItemsNesting([v] + vs), [v] + vs, end) ==
            if Within(depth, Nesting(v), v, q) == Rejected then Rejected
            else Prefixed(v, Within(depth, ItemsNesting(vs), vs, end))
  {
    hide Nesting, ItemsNesting;
    AddedNesting(v, vs);
  }

  lemma AddedNesting(v: Value, vs: seq<Value>)
    ensures ItemsNesting([v] + vs) == Max(Nesting(v), ItemsNesting(vs))
  {
    hide Nesting;
    assert ([v] + vs)[1..] == vs;
  }

  lemma ObjectParts(s: Text, i: nat, inner: Gap, members: seq<MemberDoc>)
    requires At(s, i, DocText(ObjectDoc(inner, members)))
    ensures members == [] ==>
              At(s, i + 1, GapText(inner)) && var e := i + 1 + |GapText(inner)|; e < |s| && s[e] == RBRACE
    ensures members == [] ==> |DocText(ObjectDoc(inner, members))| == |GapText(inner)| + 2
    ensures members != [] ==> At(s, i + 1, MembersText(members))
    ensures members != [] ==> |DocText(ObjectDoc(inner, members))| == |MembersText(members)| + 1
  {
    hide At, MembersText, GapText;
    AtConcat(s, i, [LBRACE], if members == [] then GapText(inner) + [RBRACE] else MembersText(members));
    if members == [] {
      AtConcat(s, i + 1, GapText(inner), [RBRACE]);
      AtByte(s, i + 1 + |GapText(inner)|, [RBRACE], 0);
    }
  }

  lemma {:induction false} ReadObject(s: Text, i: nat, inner: Gap, members: seq<MemberDoc>, depth: nat)
    requires Terminated(s) && IsGap(inner, false) && AreMembers(members, false) && depth <= 1000
    requires At(s, i, DocText(ObjectDoc(inner, members))) && i < |s| && s[i] == LBRACE
    ensures var v := Object(MemberValues(members));
            ParseObject(s, i, depth) == Within(depth, Nesting(v), v, i + |DocText(ObjectDoc(inner, members))|)
    decreases members, 3
  {
    hide At, ParseMembers, Skip, DocText, MembersText, GapText, AreMembers, MembersNesting;
    ObjectParts(s, i, inner, members);
    if members == [] {
      NothingInside();
      ReadGap(s, i + 1, inner);
    } else {
      MembersStart(s, i + 1, members);
      if depth < 1000 {
        ReadMembers(s, i + 1, members, depth + 1);
      }
    }
  }

  lemma MembersStart(s: Text, i: nat, members: seq<MemberDoc>)
    requires Terminated(s) && members != [] && AreMembers(members, false) && At(s, i, MembersText(members))
    ensures i < |s| && s[Skip(s, i)] != RBRACE
  {
    hide At, Skip, GapText, DocText, IsDoc, Terminated, MemberText, LiteralText;
    MembersParts(s, i, members);
    MemberParts(s, i, members[0]);
    KeyStart(s, i + |GapText(members[0].before)|, members[0].key);
    ReadGap(s, i, members[0].before);
  }

  lemma KeyStart(s: Text, p: nat, key: seq<Piece>)
    requires At(s, p, LiteralText(key))
    ensures p < |s| && s[p] == QUOTE
  {
    hide At, Body;
    AtByte(s, p, LiteralText(key), 0);
  }

  lemma MemberParts(s: Text, i: nat, m: MemberDoc)
    requires At(s, i, MemberText(m))
    ensures var p := i + |GapText(m.before)|;
            var c := p + |LiteralText(m.key)|;
            var k := c + |GapText(m.afterKey)|;
            var x := k + 1 + |GapText(m.beforeValue)|;
            var q := x + |DocText(m.value)|;
            At(s, i, GapText(m.before)) && At(s, p, LiteralText(m.key)) && At(s, c, GapText(m.afterKey))
            && At(s, k, [COLON]) && At(s, k + 1, GapText(m.beforeValue)) && At(s, x, DocText(m.value))
            && At(s, q, GapText(m.after)) && i + |MemberText(m)| == q + |GapText(m.after)|
  {
    hide At, GapText, DocText, LiteralText;
    var value := DocText(m.value) + GapText(m.after);
    var colon := [COLON] + (GapText(m.beforeValue) + value);
    var p := i + |GapText(m.before)|;
    var c := p + |LiteralText(m.key)|;
    var k := c + |GapText(m.afterKey)|;
    AtConcat(s, i, GapText(m.before), LiteralText(m.key) + (GapText(m.afterKey) + colon));
    AtConcat(s, p, LiteralText(m.key), GapText(m.afterKey) + colon);
    AtConcat(s, c, GapText(m.afterKey), colon);
    AtConcat(s, k, [COLON], GapText(m.beforeValue) + value);
    AtConcat(s, k + 1, GapText(m.beforeValue), value);
    AtConcat(s, k + 1 + |GapText(m.beforeValue)|, DocText(m.value), GapText(m.after));
  }

  lemma MembersParts(s: Text, i: nat, members: seq<MemberDoc>)
    requires members != [] && At(s, i, MembersText(members))
    ensures var e := i + |MemberText(members[0])|;
            At(s, i, MemberText(members[0])) && e < |s|
            && (|members| == 1 ==> s[e] == RBRACE && i + |MembersText(members)| == e + 1)
            && (|members| > 1 ==> s[e] == COMMA && At(s, e + 1, MembersText(members[1..]))
                                  && i + |MembersText(members)| == e + 1 + |MembersText(members[1..])|)
  {
    hide At, MemberText;
    var e := i + |MemberText(members[0])|;
    if |members| == 1 {
      AtConcat(s, i, MemberText(members[0]), [RBRACE]);
      AtByte(s, e, [RBRACE], 0);
    } else {
      var rest := MembersText(members[1..]);
      AtConcat(s, i, MemberText(members[0]), [COMMA] + rest);
      AtConcat(s, e, [COMMA], rest);
      AtByte(s, e, [COMMA], 0);
    }
  }

  lemma ReadKey(s: Text, i: nat, before: Gap, key: seq<Piece>)
    requires Terminated(s) && IsGap(before, false) && IsLiteral(key)
    requires At(s, i, GapText(before)) && At(s, i + |GapText(before)|, LiteralText(key))
    ensures i < |s| && ParseString(s, Skip(s, i)) ==
                       Parsed(LiteralValue(key), i + |GapText(before)| + |LiteralText(key)|)
  {
    hide At, Skip, GapText, LiteralText, IsLiteral, LiteralValue, ParseString;
    var p := i + |GapText(before)|;
    KeyStart(s, p, key);
    ReadGap(s, i, before);
    IsLiteralMeans(key);
    ParsePieces(s, p, key);
  }

  /** The key of a member at p, the gap behind it at c, its colon at k and its value at x. */
  lemma ReadMemberKey(s: Text, i: nat, p: nat, c: nat, k: nat, x: nat, m: MemberDoc)
    requires Terminated(s) && IsGap(m.before, false) && IsGap(m.afterKey, false) && IsGap(m.beforeValue, false)
    requires IsLiteral(m.key) && At(s, i, GapText(m.before)) && At(s, p, LiteralText(m.key))
    requires At(s, c, GapText(m.afterKey)) && At(s, k, [COLON]) && At(s, k + 1, GapText(m.beforeValue))
    requires p == i + |GapText(m.before)| && c == p + |LiteralText(m.key)| && k == c + |GapText(m.afterKey)|
    requires x == k + 1 + |GapText(m.beforeValue)| < |s| && s[x] > SPACE
    ensures i < |s| && ParseString(s, Skip(s, i)) == Parsed(LiteralValue(m.key), c)
    ensures Skip(s, c) == k && s[k] == COLON && Skip(s, k + 1) == x
  {
    hide *;
    ColonIsVisible();
    ReadKey(s, i, m.before, m.key);
    AtByte(s, k, [COLON], 0);
    ReadGap(s, c, m.afterKey);
    ReadGap(s, k + 1, m.beforeValue);
  }

  lemma ColonIsVisible()
    ensures COLON > SPACE
  {
  }

  lemma ParseMemberValue(s: Text, i: nat, key: Text, c: nat, depth: nat)
    requires Terminated(s) && i < |s| && ParseString(s, Skip(s, i)) == Parsed(key, c) && c < |s|
    requires s[Skip(s, c)] == COLON && Skip(s, c) + 1 < |s|
    ensures var v := ParseValue(s, Skip(s, Skip(s, c) + 1), depth);
            ParseMember(s, i, depth) == if v.Parsed? then Parsed(Member(key, v.value), v.end) else Rejected
  {
    hide Skip, ParseString, ParseValue, Terminated;
  }

  lemma {:induction false} ReadMember(s: Text, i: nat, e: nat, m: MemberDoc, depth: nat) returns (v: Member, q: nat)
    requires Terminated(s) && IsMember(m, false) && At(s, i, MemberText(m)) && depth <= 1000
    requires e == i + |MemberText(m)| < |s| && (s[e] == COMMA || s[e] == RBRACE)
    ensures i < |s| && v == Member(LiteralValue(m.key), DocValue(m.value))
    ensures ParseMember(s, i, depth) == Within(depth, Nesting(v.value), v, q)
    ensures q < |s| && Skip(s, q) == e
    decreases m, 5
  {
    hide *;
    MemberMeans(m);
    MemberParts(s, i, m);
    var p := i + |GapText(m.before)|;
    var c := p + |LiteralText(m.key)|;
    var k := c + |GapText(m.afterKey)|;
    var x := k + 1 + |GapText(m.beforeValue)|;
    DocStart(m.value);
    AtByte(s, x, DocText(m.value), 0);
    ReadMemberKey(s, i, p, c, k, x, m);
    ParseMemberValue(s, i, LiteralValue(m.key), c, depth);
    ReadValue(s, x, m.value, m.after, depth);
    v, q := Member(LiteralValue(m.key), DocValue(m.value)), x + |DocText(m.value)|;
    MemberWithin(depth, LiteralValue(m.key), DocValue(m.value), q);
  }

  lemma MemberWithin(depth: nat, key: Text, v: Value, q: nat)
    ensures var r, w := Within(depth, Nesting(v), v, q), Within(depth, Nesting(v), Member(key, v), q);
            w == if r.Parsed? then Parsed(Member(key, r.value), r.end) else Rejected
  {
  }

  lemma MemberMeans(m: MemberDoc)
    requires IsMember(m, false)
    ensures IsGap(m.before, false) && IsLiteral(m.key) && IsGap(m.afterKey, false) && IsGap(m.beforeValue, false)
            && IsDoc(m.value, false) && IsGap(m.after, false)
  {
  }

  lemma {:induction false} ReadMembers(s: Text, i: nat, members: seq<MemberDoc>, depth: nat)
    requires Terminated(s) && members != [] && AreMembers(members, false) && At(s, i, MembersText(members))
    requires depth <= 1000
    ensures i < |s| && var vs := MemberValues(members);
            ParseMembers(s, i, depth) == Within(depth, MembersNesting(vs), vs, i + |MembersText(members)|)
    decreases members, 2
  {
    hide At, Skip, DocText, IsDoc, Terminated, ParseMember, ParseMembers, Nesting, DocValue, MemberText, MembersText,
      MemberValues, MembersNesting, LiteralValue, IsLiteral;
    MembersParts(s, i, members);
    var m, q := ReadMember(s, i, i + |MemberText(members[0])|, members[0], depth);
    FirstMemberValue(members);
    if |members| == 1 {
      assert [m] + [] == [m];
      ParseLastMember(s, i, m, q, depth);
    } else {
      ReadMembers(s, i + |MemberText(members[0])| + 1, members[1..], depth);
      ParseNextMember(s, i, m, q, depth);
      WithinBothMembers(m, q, MemberValues(members[1..]), i + |MembersText(members)|, depth);
    }
  }

  lemma FirstMemberValue(members: seq<MemberDoc>)
    requires members != []
    ensures MemberValues(members) ==
            [Member(LiteralValue(members[0].key), DocValue(members[0].value))] + MemberValues(members[1..])
    ensures |members| == 1 ==> MemberValues(members[1..]) == []
  {
    hide LiteralValue, DocValue;
  }

  lemma ParseLastMember(s: Text, i: nat, m: Member, q: nat, depth: nat)
    requires Terminated(s) && i < |s| && q < |s| && s[Skip(s, q)] == RBRACE
    requires ParseMember(s, i, depth) == Within(depth, Nesting(m.value), m, q)
    ensures ParseMembers(s, i, depth) == Within(depth, MembersNesting([m]), [m], Skip(s, q) + 1)
  {
    hide Skip, ParseMember, Nesting, Terminated;
    NothingInside();
    assert [m][1..] == [];
  }

  lemma ParseNextMember(s: Text, i: nat, m: Member, q: nat, depth: nat)
    requires Terminated(s) && i < |s| && q < |s| && Skip(s, q) + 1 < |s| && s[Skip(s, q)] == COMMA
    ensures ParseMember(s, i, depth) == Parsed(m, q) ==>
              ParseMembers(s, i, depth) == Prefixed(m, ParseMembers(s, Skip(s, q) + 1, depth))
    ensures ParseMember(s, i, depth) == Rejected ==> ParseMembers(s, i, depth) == Rejected
  {
    hide Skip, ParseMember, Terminated;
  }

  lemma WithinBothMembers(m: Member, q: nat, ms: seq<Member>, end: nat, depth: nat)
    ensures Within(depth, MembersNesting([m] + ms), [m] + ms, end) ==
            if Within(depth, Nesting(m.value), m, q) == Rejected then Rejected
            else Prefixed(m, Within(depth, MembersNesting(ms), ms, end))
  {
    hide Nesting, MembersNesting;
    AddedMember(m, ms);
  }

  lemma AddedMember(m: Member, ms: seq<Member>)
    ensures MembersNesting([m] + ms) == Max(Nesting(m.value), MembersNesting(ms))
  {
    hide Nesting;
    assert ([m] + ms)[1..] == ms;
  }

  // ---------------------------------------------------------------- nothing else is read

  /** d is the value that was read at i: its text stands there, it is what was read, and the end is behind it. */
  ghost predicate IsRead(s: Text, i: nat, d: Doc, r: Parsed<Value>) {
    IsDoc(d, false) && At(s, i, DocText(d)) && (d.NumberDoc? ==> Foremost(s, i, d.numeral))
    && r == Parsed(DocValue(d), i + |DocText(d)|)
  }

  lemma WordIsRead(s: Text, i: nat)
    ensures At(s, i, NULL_TEXT) ==> IsRead(s, i, NullDoc, Parsed(Null, i + 4))
    ensures At(s, i, FALSE_TEXT) ==> IsRead(s, i, FalseDoc, Parsed(False, i + 5))
    ensures At(s, i, TRUE_TEXT) ==> IsRead(s, i, TrueDoc, Parsed(True, i + 4))
  {
    hide At;
  }

  lemma StringIsRead(s: Text, i: nat, ps: seq<Piece>)
    requires IsLiteral(ps) && At(s, i, LiteralText(ps))
    ensures IsRead(s, i, StringDoc(ps), Parsed(String(LiteralValue(ps)), i + |LiteralText(ps)|))
  {
    hide At, LiteralText, IsLiteral, LiteralValue;
  }

  lemma NumberIsRead(s: Text, i: nat, n: Numeral)
    requires Foremost(s, i, n)
    ensures IsRead(s, i, NumberDoc(n), Parsed(Number(NumeralValue(n)), i + |NumeralText(n)|))
  {
    hide At, NumeralText, NumeralValue, IsNumeral;
  }

  lemma ScalarRead(s: Text, i: nat, depth: nat) returns (d: Doc)
    requires Terminated(s) && i < |s| && ParseValue(s, i, depth).Parsed? && s[i] != LBRACKET && s[i] != LBRACE
    ensures IsRead(s, i, d, ParseValue(s, i, depth))
  {
    hide *;
    RuleAt(s, i, depth);
    WordIsRead(s, i);
    if At(s, i, NULL_TEXT) {
      d := NullDoc;
    } else if At(s, i, FALSE_TEXT) {
      d := FalseDoc;
    } else if At(s, i, TRUE_TEXT) {
      d := TrueDoc;
    } else if s[i] == QUOTE {
      var ps := LiteralRead(s, i);
      d := StringDoc(ps);
      StringIsRead(s, i, ps);
    } else {
      var n := NumberRead(s, i);
      d := NumberDoc(n);
      NumberIsRead(s, i, n);
    }
  }

  /** Every value that is read was written there as JsonSyntax says. */
  lemma {:induction false} DocRead(s: Text, i: nat, depth: nat) returns (d: Doc)
    requires Terminated(s) && i < |s| && ParseValue(s, i, depth).Parsed?
    ensures IsRead(s, i, d, ParseValue(s, i, depth))
    decreases |s| - i, 1
  {
    hide *;
    RuleAt(s, i, depth);
    if s[i] == LBRACKET {
      d := ArrayRead(s, i, depth);
    } else if s[i] == LBRACE {
      d := ObjectRead(s, i, depth);
    } else {
      d := ScalarRead(s, i, depth);
    }
  }

  lemma AtOne(s: Text, i: nat, b: Byte)
    ensures i < |s| && s[i] == b ==> At(s, i, [b])
  {
  }

  lemma EmptyArrayIsRead(s: Text, i: nat, g: Gap)
    requires i < |s| && s[i] == LBRACKET && IsGap(g, false) && At(s, i + 1, GapText(g))
    requires var e := i + 1 + |GapText(g)|; e < |s| && s[e] == RBRACKET
    ensures IsRead(s, i, ArrayDoc(g, []), Parsed(Array([]), i + |GapText(g)| + 2))
  {
    hide At, GapText, IsGap;
    NothingInside();
    AtOne(s, i, LBRACKET);
    AtOne(s, i + 1 + |GapText(g)|, RBRACKET);
    AtAppend(s, i + 1, GapText(g), [RBRACKET]);
    AtAppend(s, i, [LBRACKET], GapText(g) + [RBRACKET]);
    var d := ArrayDoc(g, []);
    assert DocText(d) == [LBRACKET] + (GapText(g) + [RBRACKET]);
    assert IsDoc(d, false) && DocValue(d) == Array([]);
  }

  lemma ArrayIsRead(s: Text, i: nat, items: seq<ItemDoc>)
    requires i < |s| && s[i] == LBRACKET && items != [] && AreItems(items, false) && At(s, i + 1, ItemsText(items))
    ensures IsRead(s, i, ArrayDoc([], items), Parsed(Array(ItemValues(items)), i + 1 + |ItemsText(items)|))
  {
    hide At, ItemsText, AreItems, ItemValues;
    AtOne(s, i, LBRACKET);
    AtAppend(s, i, [LBRACKET], ItemsText(items));
  }

  lemma {:induction false} ArrayRead(s: Text, i: nat, depth: nat) returns (d: Doc)
    requires Terminated(s) && i < |s| && s[i] == LBRACKET && ParseArray(s, i, depth).Parsed?
    ensures IsRead(s, i, d, ParseArray(s, i, depth))
    decreases |s| - i, 0
  {
    hide *;
    ArrayParsed(s, i, depth);
    if s[Skip(s, i + 1)] == RBRACKET {
      var g := GapRead(s, i + 1);
      d := ArrayDoc(g, []);
      EmptyArrayIsRead(s, i, g);
    } else {
      var items := ItemsRead(s, i + 1, depth + 1);
      d := ArrayDoc([], items);
      ArrayIsRead(s, i, items);
    }
  }

  /** What the array rule reads. */
  lemma ArrayParsed(s: Text, i: nat, depth: nat)
    requires Terminated(s) && i < |s| && s[i] == LBRACKET && ParseArray(s, i, depth).Parsed?
    ensures i + 1 < |s|
    ensures var j, r := Skip(s, i + 1), ParseItems(s, i + 1, depth + 1);
            ParseArray(s, i, depth) == if s[j] == RBRACKET then Parsed(Array([]), j + 1) else
                                         if r.Parsed? then Parsed(Array(r.value), r.end) else Rejected
  {
    hide Skip, ParseItems;
  }

  /** The value behind a gap, with the gap behind it. */
  lemma {:induction false} ItemRead(s: Text, i: nat, depth: nat) returns (x: ItemDoc)
    requires Terminated(s) && i < |s| && ParseValue(s, Skip(s, i), depth).Parsed?
    ensures IsItem(x, false) && At(s, i, ItemText(x))
    ensures var r := ParseValue(s, Skip(s, i), depth);
            DocValue(x.value) == r.value && i + |ItemText(x)| == Skip(s, r.end)
    decreases |s| - i, 2
  {
    hide At, Skip, GapText, DocText, IsDoc, DocValue, ParseValue, Terminated;
    var r := ParseValue(s, Skip(s, i), depth);
    var before := GapRead(s, i);
    var d := DocRead(s, Skip(s, i), depth);
    var after := GapRead(s, r.end);
    x := ItemDoc(before, d, after);
    AtAppend(s, Skip(s, i), DocText(d), GapText(after));
    AtAppend(s, i, GapText(before), DocText(d) + GapText(after));
  }

  lemma LastItemIsRead(s: Text, i: nat, x: ItemDoc)
    requires IsItem(x, false) && At(s, i, ItemText(x))
    requires var k := i + |ItemText(x)|; k < |s| && s[k] == RBRACKET
    ensures AreItems([x], false) && At(s, i, ItemsText([x])) && |ItemsText([x])| == |ItemText(x)| + 1
    ensures ItemValues([x]) == [DocValue(x.value)]
  {
    hide At, ItemText, IsItem, DocValue;
    AtOne(s, i + |ItemText(x)|, RBRACKET);
    AtAppend(s, i, ItemText(x), [RBRACKET]);
    NothingInside();
  }

  lemma NextItemIsRead(s: Text, i: nat, x: ItemDoc, rest: seq<ItemDoc>)
    requires IsItem(x, false) && At(s, i, ItemText(x)) && AreItems(rest, false) && rest != []
    requires var k := i + |ItemText(x)|; k < |s| && s[k] == COMMA && At(s, k + 1, ItemsText(rest))
    ensures AreItems([x] + rest, false) && At(s, i, ItemsText([x] + rest))
    ensures |ItemsText([x] + rest)| == |ItemText(x)| + 1 + |ItemsText(rest)|
    ensures ItemValues([x] + rest) == [DocValue(x.value)] + ItemValues(rest)
  {
    hide At, ItemText, IsItem, DocValue;
    var k := i + |ItemText(x)|;
    assert ([x] + rest)[1..] == rest;
    AtOne(s, k, COMMA);
    AtAppend(s, k, [COMMA], ItemsText(rest));
    AtAppend(s, i, ItemText(x), [COMMA] + ItemsText(rest));
  }

  lemma {:induction false} ItemsRead(s: Text, i: nat, depth: nat) returns (items: seq<ItemDoc>)
    requires Terminated(s) && i < |s| && ParseItems(s, i, depth).Parsed?
    ensures items != [] && AreItems(items, false) && At(s, i, ItemsText(items))
    ensures ParseItems(s, i, depth) == Parsed(ItemValues(items), i + |ItemsText(items)|)
    decreases |s| - i, 3
  {
    hide *;
    var v, k := ItemsParsed(s, i, depth);
    var x := ItemRead(s, i, depth);
    if s[k] == RBRACKET {
      items := [x];
      LastItemIsRead(s, i, x);
    } else {
      var rest := ItemsRead(s, k + 1, depth);
      items := [x] + rest;
      NextItemIsRead(s, i, x, rest);
      PrefixedIs(v, ItemValues(rest), k + 1 + |ItemsText(rest)|);
    }
  }

  /** What the rule for several elements reads: one, and behind it the closing bracket at k or a comma and more. */
  lemma ItemsParsed(s: Text, i: nat, depth: nat) returns (v: Value, k: nat)
    requires Terminated(s) && i < |s| && ParseItems(s, i, depth).Parsed?
    ensures var r := ParseValue(s, Skip(s, i), depth); r.Parsed? && v == r.value && k == Skip(s, r.end)
    ensures s[k] == RBRACKET || (s[k] == COMMA && k + 1 < |s|)
    ensures s[k] == RBRACKET ==> ParseItems(s, i, depth) == Parsed([v], k + 1)
    ensures s[k] == COMMA ==> ParseItems(s, k + 1, depth).Parsed?
                              && ParseItems(s, i, depth) == Prefixed(v, ParseItems(s, k + 1, depth))
  {
    hide Skip, ParseValue;
    var r := ParseValue(s, Skip(s, i), depth);
    v, k := r.value, Skip(s, r.end);
  }

  lemma EmptyObjectIsRead(s: Text, i: nat, g: Gap)
    requires i < |s| && s[i] == LBRACE && IsGap(g, false) && At(s, i + 1, GapText(g))
    requires var e := i + 1 + |GapText(g)|; e < |s| && s[e] == RBRACE
    ensures IsRead(s, i, ObjectDoc(g, []), Parsed(Object([]), i + |GapText(g)| + 2))
  {
    hide At, GapText, IsGap;
    NothingInside();
    AtOne(s, i, LBRACE);
    AtOne(s, i + 1 + |GapText(g)|, RBRACE);
    AtAppend(s, i + 1, GapText(g), [RBRACE]);
    AtAppend(s, i, [LBRACE], GapText(g) + [RBRACE]);
    var d := ObjectDoc(g, []);
    assert DocText(d) == [LBRACE] + (GapText(g) + [RBRACE]);
    assert IsDoc(d, false) && DocValue(d) == Object([]);
  }

  lemma ObjectIsRead(s: Text, i: nat, members: seq<MemberDoc>)
    requires i < |s| && s[i] == LBRACE && members != [] && AreMembers(members, false)
    requires At(s, i + 1, MembersText(members))
    ensures IsRead(s, i, ObjectDoc([], members), Parsed(Object(MemberValues(members)), i + 1 + |MembersText(members)|))
  {
    hide At, MembersText, AreMembers, MemberValues;
    AtOne(s, i, LBRACE);
    AtAppend(s, i, [LBRACE], MembersText(members));
  }

  lemma {:induction false} ObjectRead(s: Text, i: nat, depth: nat) returns (d: Doc)
    requires Terminated(s) && i < |s| && s[i] == LBRACE && ParseObject(s, i, depth).Parsed?
    ensures IsRead(s, i, d, ParseObject(s, i, depth))
    decreases |s| - i, 0
  {
    hide *;
    ObjectParsed(s, i, depth);
    if s[Skip(s, i + 1)] == RBRACE {
      var g := GapRead(s, i + 1);
      d := ObjectDoc(g, []);
      EmptyObjectIsRead(s, i, g);
    } else {
      var members := MembersRead(s, i + 1, depth + 1);
      d := ObjectDoc([], members);
      ObjectIsRead(s, i, members);
    }
  }

  /** What the object rule reads. */
  lemma ObjectParsed(s: Text, i: nat, depth: nat)
    requires Terminated(s) && i < |s| && s[i] == LBRACE && ParseObject(s, i, depth).Parsed?
    ensures i + 1 < |s|
    ensures var j, r := Skip(s, i + 1), ParseMembers(s, i + 1, depth + 1);
            ParseObject(s, i, depth) == if s[j] == RBRACE then Parsed(Object([]), j + 1) else
                                          if r.Parsed? then Parsed(Object(r.value), r.end) else Rejected
  {
    hide Skip, ParseMembers;
  }

  /** What the member rule reads: a key, a colon and a value. */
  lemma MemberParsed(s: Text, i: nat, depth: nat) returns (key: Text, c: nat, v: Value, q: nat)
    requires Terminated(s) && i < |s| && ParseMember(s, i, depth).Parsed?
    ensures ParseMember(s, i, depth) == Parsed(Member(key, v), q)
    ensures ParseString(s, Skip(s, i)) == Parsed(key, c) && c < |s|
    ensures s[Skip(s, c)] == COLON && Skip(s, c) + 1 < |s|
    ensures ParseValue(s, Skip(s, Skip(s, c) + 1), depth) == Parsed(v, q)
  {
    hide Skip, ParseString, ParseValue;
    var r := ParseMember(s, i, depth);
    key, v, q := r.value.key, r.value.value, r.end;
    c := ParseString(s, Skip(s, i)).end;
  }

  lemma {:induction false} MemberRead(s: Text, i: nat, depth: nat) returns (m: MemberDoc)
    requires Terminated(s) && i < |s| && ParseMember(s, i, depth).Parsed?
    ensures IsMember(m, false) && At(s, i, MemberText(m))
    ensures var r := ParseMember(s, i, depth);
            r.value == Member(LiteralValue(m.key), DocValue(m.value)) && i + |MemberText(m)| == Skip(s, r.end)
    decreases |s| - i, 2
  {
    hide *;
    var key', c, v, q := MemberParsed(s, i, depth);
    var p, k := Skip(s, i), Skip(s, c);
    var before := GapRead(s, i);
    var key := LiteralRead(s, p);
    var afterKey := GapRead(s, c);
    AtOne(s, k, COLON);
    var x := ItemRead(s, k + 1, depth);
    m := MemberDoc(before, key, afterKey, x.before, x.value, x.after);
    MemberJoins(s, i, p, c, k, m, x);
    MemberIsRead(m, x);
  }

  lemma MemberIsRead(m: MemberDoc, x: ItemDoc)
    requires IsItem(x, false) && x == ItemDoc(m.beforeValue, m.value, m.after)
    requires IsGap(m.before, false) && IsLiteral(m.key) && IsGap(m.afterKey, false)
    ensures IsMember(m, false)
  {
  }

  lemma MemberJoins(s: Text, i: nat, p: nat, c: nat, k: nat, m: MemberDoc, x: ItemDoc)
    requires x == ItemDoc(m.beforeValue, m.value, m.after)
    requires p == i + |GapText(m.before)| && c == p + |LiteralText(m.key)| && k == c + |GapText(m.afterKey)|
    requires At(s, i, GapText(m.before)) && At(s, p, LiteralText(m.key)) && At(s, c, GapText(m.afterKey))
    requires At(s, k, [COLON]) && At(s, k + 1, ItemText(x))
    ensures At(s, i, MemberText(m)) && i + |MemberText(m)| == k + 1 + |ItemText(x)|
  {
    hide At, GapText, DocText, LiteralText;
    AtAppend(s, k, [COLON], ItemText(x));
    AtAppend(s, c, GapText(m.afterKey), [COLON] + ItemText(x));
    AtAppend(s, p, LiteralText(m.key), GapText(m.afterKey) + ([COLON] + ItemText(x)));
    AtAppend(s, i, GapText(m.before), LiteralText(m.key) + (GapText(m.afterKey) + ([COLON] + ItemText(x))));
  }

  lemma LastMemberIsRead(s: Text, i: nat, x: MemberDoc)
    requires IsMember(x, false) && At(s, i, MemberText(x))
    requires var k := i + |MemberText(x)|; k < |s| && s[k] == RBRACE
    ensures AreMembers([x], false) && At(s, i, MembersText([x])) && |MembersText([x])| == |MemberText(x)| + 1
    ensures MemberValues([x]) == [Member(LiteralValue(x.key), DocValue(x.value))]
  {
    hide At, MemberText, IsMember, LiteralValue, DocValue;
    AtOne(s, i + |MemberText(x)|, RBRACE);
    AtAppend(s, i, MemberText(x), [RBRACE]);
    NothingInside();
  }

  lemma NextMemberIsRead(s: Text, i: nat, x: MemberDoc, rest: seq<MemberDoc>)
    requires IsMember(x, false) && At(s, i, MemberText(x)) && AreMembers(rest, false) && rest != []
    requires var k := i + |MemberText(x)|; k < |s| && s[k] == COMMA && At(s, k + 1, MembersText(rest))
    ensures AreMembers([x] + rest, false) && At(s, i, MembersText([x] + rest))
    ensures |MembersText([x] + rest)| == |MemberText(x)| + 1 + |MembersText(rest)|
    ensures MemberValues([x] + rest) == [Member(LiteralValue(x.key), DocValue(x.value))] + MemberValues(rest)
  {
    hide At, MemberText, IsMember, LiteralValue, DocValue;
    var k := i + |MemberText(x)|;
    assert ([x] + rest)[1..] == rest;
    AtOne(s, k, COMMA);
    AtAppend(s, k, [COMMA], MembersText(rest));
    AtAppend(s, i, MemberText(x), [COMMA] + MembersText(rest));
  }

  lemma {:induction false} MembersRead(s: Text, i: nat, depth: nat) returns (members: seq<MemberDoc>)
    requires Terminated(s) && i < |s| && ParseMembers(s, i, depth).Parsed?
    ensures members != [] && AreMembers(members, false) && At(s, i, MembersText(members))
    ensures ParseMembers(s, i, depth) == Parsed(MemberValues(members), i + |MembersText(members)|)
    decreases |s| - i, 3
  {
    hide *;
    var v, k := MembersParsed(s, i, depth);
    var x := MemberRead(s, i, depth);
    if s[k] == RBRACE {
      members := [x];
      LastMemberIsRead(s, i, x);
    } else {
      var rest := MembersRead(s, k + 1, depth);
      members := [x] + rest;
      NextMemberIsRead(s, i, x, rest);
      PrefixedIs(v, MemberValues(rest), k + 1 + |MembersText(rest)|);
    }
  }

  lemma PrefixedIs<T>(x: T, xs: seq<T>, e: nat)
    ensures Prefixed(x, Parsed(xs, e)) == Parsed([x] + xs, e)
  {
  }

  /** What the rule for several members reads: one, and behind it the closing brace at k or a comma and more. */
  lemma MembersParsed(s: Text, i: nat, depth: nat) returns (v: Member, k: nat)
    requires Terminated(s) && i < |s| && ParseMembers(s, i, depth).Parsed?
    ensures var r := ParseMember(s, i, depth); r.Parsed? && v == r.value && k == Skip(s, r.end)
    ensures s[k] == RBRACE || (s[k] == COMMA && k + 1 < |s|)
    ensures s[k] == RBRACE ==> ParseMembers(s, i, depth) == Parsed([v], k + 1)
    ensures s[k] == COMMA ==> ParseMembers(s, k + 1, depth).Parsed?
                              && ParseMembers(s, i, depth) == Prefixed(v, ParseMembers(s, k + 1, depth))
  {
    hide Skip, ParseMember;
    var r := ParseMember(s, i, depth);
    v, k := r.value, Skip(s, r.end);
  }

  // ---------------------------------------------------------------- documents

  function Mark(mark: bool): Text { if mark then [0xEF, 0xBB, 0xBF] else [] }

  /** Where the parser starts. */
  function Start(s: Text): nat { if |s| > 4 && s[0] == 0xEF && s[1] == 0xBB && s[2] == 0xBF then 3 else 0 }

  /** The parser on a text, its terminator included. */
  lemma DocumentParsed(text: Text, requireEnd: bool)
    requires NulFree(text)
    ensures var s := text + [NUL];
            Terminated(s) && Start(s) < |s| && |s| == |text| + 1
            && var r := ParseValue(s, Skip(s, Start(s)), 0);
               ParseDocument(text, requireEnd) == if r.Parsed? && requireEnd then
                                                    if s[Skip(s, r.end)] == NUL then Parsed(r.value, Skip(s, r.end))
                                                    else Rejected
                                                  else r
  {
    hide ParseValue, Skip;
    var s := text + [NUL];
    assert s[..|s| - 1] == text;
  }

  lemma OnlyTerminator(s: Text, k: nat)
    ensures Terminated(s) && k < |s| ==> (s[k] == NUL <==> k == |s| - 1)
  {
    if Terminated(s) && k < |s| - 1 {
      assert s[..|s| - 1][k] == s[k];
    }
  }

  /** A text that starts with a value, or with a gap before one, has no byte order mark of its own. */
  lemma StartsAt(s: Text, mark: bool, g: Gap, d: Doc)
    requires IsGap(g, false) && IsDoc(d, false) && At(s, 0, Mark(mark) + (GapText(g) + DocText(d)))
    requires |Mark(mark) + (GapText(g) + DocText(d))| < |s|
    ensures Start(s) == |Mark(mark)| && At(s, Start(s), GapText(g)) && At(s, Start(s) + |GapText(g)|, DocText(d))
    ensures var p := Start(s) + |GapText(g)|; p < |s| && s[p] > SPACE
  {
    var t := GapText(g) + DocText(d);
    DocStart(d);
    GapStart(g);
    AtConcat(s, 0, Mark(mark), t);
    AtConcat(s, |Mark(mark)|, GapText(g), DocText(d));
    hide At, GapText, DocText, IsDoc, IsGap;
    AtByte(s, |Mark(mark)|, t, 0);
    AtByte(s, |Mark(mark)| + |GapText(g)|, DocText(d), 0);
    if mark {
      AtByte(s, 0, Mark(mark), 0);
      AtByte(s, 0, Mark(mark), 1);
      AtByte(s, 0, Mark(mark), 2);
    }
  }

  lemma GapStart(g: Gap)
    requires IsGap(g, false)
    ensures GapText(g) != [] ==> GapText(g)[0] <= SPACE
  {
  }

  /** The text of a document up to the end of its value stands at the beginning of s. */
  lemma ReadOpening(s: Text, d: Document)
    requires Terminated(s) && IsGap(d.before, false) && IsDoc(d.value, false) && At(s, 0, Opening(d))
    requires d.value.NumberDoc? ==> Foremost(s, |Mark(d.mark)| + |GapText(d.before)|, d.value.numeral)
    ensures |Opening(d)| < |s| && Start(s) < |s|
    ensures ParseValue(s, Skip(s, Start(s)), 0) ==
            Within(0, Nesting(DocValue(d.value)), DocValue(d.value), |Opening(d)|)
  {
    hide *;
    OpeningEnds(s, d);
    StartsAt(s, d.mark, d.before, d.value);
    ReadGap(s, Start(s), d.before);
    ReadDoc(s, Start(s) + |GapText(d.before)|, d.value, 0);
  }

  lemma OpeningEnds(s: Text, d: Document)
    requires Terminated(s) && IsDoc(d.value, false) && At(s, 0, Opening(d))
    ensures |Opening(d)| < |s| && Opening(d) == Mark(d.mark) + (GapText(d.before) + DocText(d.value))
  {
    DocEnd(d.value);
    hide GapText, DocText, IsDoc, At;
    var t := Opening(d);
    AtFits(s, 0, t);
    AtByte(s, 0, t, |t| - 1);
    OnlyTerminator(s, |t| - 1);
  }

  lemma DocEnd(d: Doc)
    requires IsDoc(d, false)
    ensures var t := DocText(d); t != [] && t[|t| - 1] != NUL
  {
    match d
    case NumberDoc(n) => NumeralBytes(n, |NumeralText(n)| - 1);
    case ArrayDoc(_, items) => if items != [] { ItemsEnd(items); }
    case ObjectDoc(_, members) => if members != [] { MembersEnd(members); }
    case _ =>
  }

  lemma {:induction false} ItemsEnd(items: seq<ItemDoc>)
    requires items != []
    ensures var t := ItemsText(items); t != [] && t[|t| - 1] == RBRACKET
  {
    hide ItemText;
    if |items| > 1 {
      ItemsEnd(items[1..]);
    }
  }

  lemma {:induction false} MembersEnd(members: seq<MemberDoc>)
    requires members != []
    ensures var t := MembersText(members); t != [] && t[|t| - 1] == RBRACE
  {
    hide MemberText;
    if |members| > 1 {
      MembersEnd(members[1..]);
    }
  }

  /** A document without comments is read as its value, up to its end or up to the end of the value; it is rejected
      exactly if it nests deeper than a thousand levels. */
  lemma ReadDocument(d: Document, requireEnd: bool)
    requires IsDocument(d, false) && NulFree(DocumentText(d))
    ensures ParseDocument(DocumentText(d), requireEnd) ==
            Within(0, Nesting(DocValue(d.value)), DocValue(d.value),
                   if requireEnd then |DocumentText(d)| else |Opening(d)|)
  {
    hide *;
    var text := DocumentText(d);
    var s := text + [NUL];
    DocumentParsed(text, requireEnd);
    DocumentStands(d, s);
    ReadOpening(s, d);
    ReadClosing(s, |Opening(d)|, d.after);
    OnlyTerminator(s, |s| - 1);
    WithinEnd(Nesting(DocValue(d.value)), DocValue(d.value), |Opening(d)|, |text|);
  }

  lemma WithinEnd(needed: nat, v: Value, e: nat, end: nat)
    ensures Within(0, needed, v, end) == if Within(0, needed, v, e).Parsed? then Parsed(v, end) else Rejected
    ensures Within(0, needed, v, e).Parsed? ==> Within(0, needed, v, e) == Parsed(v, e)
  {
  }

  lemma ReadClosing(s: Text, e: nat, g: Gap)
    requires IsGap(g, false) && At(s, e, GapText(g)) && e + |GapText(g)| == |s| - 1
    ensures Skip(s, e) == |s| - 1
  {
    ReadGap(s, e, g);
  }

  /** The parts of a document in front of a terminator. */
  lemma DocumentStands(d: Document, s: Text)
    requires IsDocument(d, false) && s == DocumentText(d) + [NUL]
    ensures IsGap(d.before, false) && IsDoc(d.value, false) && IsGap(d.after, false)
    ensures At(s, 0, Opening(d)) && At(s, |Opening(d)|, GapText(d.after))
    ensures |s| == |Opening(d)| + |GapText(d.after)| + 1
    ensures d.value.NumberDoc? ==> Foremost(s, |Mark(d.mark)| + |GapText(d.before)|, d.value.numeral)
  {
    hide GapText, IsGap, IsDoc, Opening, Foremost;
    assert At(s, 0, Opening(d) + GapText(d.after));
    hide At;
    AtConcat(s, 0, Opening(d), GapText(d.after));
    NumberStands(d, s);
  }

  lemma NumberStands(d: Document, s: Text)
    requires IsDoc(d.value, false) && IsGap(d.after, false)
    requires At(s, 0, Opening(d)) && At(s, |Opening(d)|, GapText(d.after))
    requires |s| == |Opening(d)| + |GapText(d.after)| + 1 && s[|s| - 1] == NUL
    ensures d.value.NumberDoc? ==> Foremost(s, |Mark(d.mark)| + |GapText(d.before)|, d.value.numeral)
  {
    hide *;
    OpeningText(d);
    var p := |Mark(d.mark)| + |GapText(d.before)|;
    AtConcat(s, 0, Mark(d.mark), GapText(d.before) + DocText(d.value));
    AtConcat(s, |Mark(d.mark)|, GapText(d.before), DocText(d.value));
    NoNumberBehind(s, |Opening(d)|, d.after);
    NumberText(d.value);
    NumberIsNumeral(d.value);
    if d.value.NumberDoc? {
      Followed(s, p, d.value.numeral);
    }
  }

  lemma OpeningText(d: Document)
    ensures Opening(d) == Mark(d.mark) + (GapText(d.before) + DocText(d.value))
  {
  }

  lemma NumberText(d: Doc)
    ensures d.NumberDoc? ==> DocText(d) == NumeralText(d.numeral)
  {
  }

  lemma NoNumberBehind(s: Text, q: nat, g: Gap)
    requires IsGap(g, false) && At(s, q, GapText(g)) && q + |GapText(g)| == |s| - 1 && s[|s| - 1] == NUL
    ensures !IsNumberByte(s[q])
  {
    if g != [] {
      assert s[q + 0] == GapText(g)[0];
    }
  }

  /** What the parser has read, with or without a required end, is a document or the beginning of one. */
  lemma OpeningRead(text: Text) returns (d: Document)
    requires NulFree(text) && ParseDocument(text, false).Parsed?
    ensures IsGap(d.before, false) && IsDoc(d.value, false) && Nesting(DocValue(d.value)) <= 1000
    ensures ParseDocument(text, false) == Parsed(DocValue(d.value), |Opening(d)|) && At(text + [NUL], 0, Opening(d))
    ensures d.value.NumberDoc? ==>
              Foremost(text + [NUL], |Mark(d.mark)| + |GapText(d.before)|, d.value.numeral)
  {
    hide *;
    LevelsAreThousand();
    var s := text + [NUL];
    DocumentParsed(text, false);
    var p := Skip(s, Start(s));
    var g := GapRead(s, Start(s));
    var value := DocRead(s, p, 0);
    ParseValueNesting(s, p, 0);
    IsReadMeans(s, p, value, ParseValue(s, p, 0));
    MarkRead(s);
    d := Document(Start(s) == 3, g, value, []);
    OpeningJoins(s, d);
  }

  lemma LevelsAreThousand()
    ensures NESTING_LIMIT == 1000
  {
  }

  lemma IsReadMeans(s: Text, i: nat, d: Doc, r: Parsed<Value>)
    requires IsRead(s, i, d, r)
    ensures IsDoc(d, false) && At(s, i, DocText(d)) && (d.NumberDoc? ==> Foremost(s, i, d.numeral))
    ensures r == Parsed(DocValue(d), i + |DocText(d)|)
  {
  }

  lemma MarkRead(s: Text)
    ensures At(s, 0, Mark(Start(s) == 3)) && Start(s) == |Mark(Start(s) == 3)|
  {
  }

  lemma OpeningJoins(s: Text, d: Document)
    requires At(s, 0, Mark(d.mark)) && At(s, |Mark(d.mark)|, GapText(d.before))
    requires At(s, |Mark(d.mark)| + |GapText(d.before)|, DocText(d.value))
    ensures At(s, 0, Opening(d)) && |Opening(d)| == |Mark(d.mark)| + |GapText(d.before)| + |DocText(d.value)|
  {
    hide At, GapText, DocText;
    AtAppend(s, |Mark(d.mark)|, GapText(d.before), DocText(d.value));
    AtAppend(s, 0, Mark(d.mark), GapText(d.before) + DocText(d.value));
  }

  /** A text that is accepted up to its end is a document, and its value is read. */
  lemma DocumentRead(text: Text) returns (d: Document)
    requires NulFree(text) && ParseDocument(text, true).Parsed?
    ensures IsDocument(d, false) && DocumentText(d) == text && Nesting(DocValue(d.value)) <= 1000
    ensures ParseDocument(text, true) == Parsed(DocValue(d.value), |text|)
  {
    hide *;
    var s := text + [NUL];
    DocumentParsed(text, true);
    DocumentParsed(text, false);
    d := OpeningRead(text);
    var e := |Opening(d)|;
    OnlyTerminator(s, Skip(s, e));
    var g := GapRead(s, e);
    OpeningText(d);
    d := Document(d.mark, d.before, d.value, g);
    OpeningText(d);
    DocumentJoins(text, d);
  }

  lemma DocumentJoins(text: Text, d: Document)
    requires At(text + [NUL], 0, Opening(d)) && At(text + [NUL], |Opening(d)|, GapText(d.after))
    requires |Opening(d)| + |GapText(d.after)| == |text|
    requires IsGap(d.before, false) && IsDoc(d.value, false) && IsGap(d.after, false)
    ensures DocumentText(d) == text && IsDocument(d, false)
  {
    hide At, GapText, DocText, IsGap, IsDoc;
    var s := text + [NUL];
    AtAppend(s, 0, Opening(d), GapText(d.after));
    AtSlice(s, 0, DocumentText(d));
  }

  /** The text is a document without comments that writes v, at most a thousand levels deep. */
  ghost predicate Writes(d: Document, text: Text, v: Value) {
    IsDocument(d, false) && DocumentText(d) == text && DocValue(d.value) == v && Nesting(v) <= 1000
  }

  /** With a required end a text is accepted as a value if and only if it is a document that writes the value. */
  lemma AcceptedExactly(text: Text, v: Value)
    requires NulFree(text)
    ensures ParseDocument(text, true) == Parsed(v, |text|) <==> exists d: Document :: Writes(d, text, v)
    ensures ParseDocument(text, true).Parsed? ==> ParseDocument(text, true).end == |text|
  {
    hide ParseDocument, DocumentText, DocValue, IsDocument, NulFree, Nesting;
    if ParseDocument(text, true).Parsed? {
      var d := DocumentRead(text);
      assert Writes(d, text, DocValue(d.value));
    }
    if d: Document :| Writes(d, text, v) {
      ReadDocument(d, true);
    }
  }

  /** The first e bytes of the text are a document up to the end of its value, which is v, at most a thousand levels
      deep; a number ends where no longer one stands. */
  ghost predicate Begins(d: Document, text: Text, v: Value, e: nat) {
    IsGap(d.before, false) && IsDoc(d.value, false) && At(text, 0, Opening(d)) && e == |Opening(d)|
    && DocValue(d.value) == v && Nesting(v) <= 1000
    && (d.value.NumberDoc? ==> Foremost(text, |Mark(d.mark)| + |GapText(d.before)|, d.value.numeral))
  }

  /** A text that does not end with a NUL stands in front of the terminator or not at all. */
  lemma AtBeforeNul(text: Text, i: nat, t: Text)
    requires t != [] && t[|t| - 1] != NUL
    ensures At(text, i, t) <==> At(text + [NUL], i, t)
  {
    var s := text + [NUL];
    if At(s, i, t) {
      assert s[i + (|t| - 1)] == t[|t| - 1];
      assert forall k :: i <= k < i + |t| ==> s[k] == text[k];
    }
    if At(text, i, t) {
      assert forall k :: i <= k < i + |t| ==> s[k] == text[k];
    }
  }

  lemma NumeralEnd(n: Numeral)
    requires IsNumeral(n)
    ensures var t := NumeralText(n); t != [] && t[|t| - 1] != NUL
  {
    NumeralStart(n);
    NumeralBytes(n, |NumeralText(n)| - 1);
  }

  lemma ForemostBeforeNul(text: Text, i: nat, n: Numeral)
    requires i <= |text|
    ensures Foremost(text, i, n) <==> Foremost(text + [NUL], i, n)
  {
    hide At, NumeralText, IsNumeral;
    forall m: Numeral | IsNumeral(m)
      ensures At(text, i, NumeralText(m)) <==> At(text + [NUL], i, NumeralText(m))
    {
      NumeralEnd(m);
      AtBeforeNul(text, i, NumeralText(m));
    }
  }

  /** So does the opening of a document. */
  lemma OpeningFits(text: Text, d: Document)
    requires IsDoc(d.value, false)
    ensures At(text, 0, Opening(d)) <==> At(text + [NUL], 0, Opening(d))
    ensures At(text, 0, Opening(d)) ==> |Mark(d.mark)| + |GapText(d.before)| <= |text|
  {
    DocEnd(d.value);
    hide GapText, DocText, At;
    AtFits(text, 0, Opening(d));
    AtBeforeNul(text, 0, Opening(d));
  }

  /** Without a required end a value is read from a text, up to offset e, if and only if the text begins so. */
  lemma PrefixExactly(text: Text, v: Value, e: nat)
    requires NulFree(text)
    ensures ParseDocument(text, false) == Parsed(v, e) <==> exists d: Document :: Begins(d, text, v, e)
  {
    hide ParseDocument, Opening, DocValue, IsDoc, IsGap, NulFree, Nesting, Foremost, GapText, At;
    if ParseDocument(text, false).Parsed? {
      var d := OpeningRead(text);
      OpeningFits(text, d);
      if d.value.NumberDoc? {
        ForemostBeforeNul(text, |Mark(d.mark)| + |GapText(d.before)|, d.value.numeral);
      }
      assert Begins(d, text, DocValue(d.value), |Opening(d)|);
    }
    if d: Document :| Begins(d, text, v, e) {
      OpeningFits(text, d);
      if d.value.NumberDoc? {
        ForemostBeforeNul(text, |Mark(d.mark)| + |GapText(d.before)|, d.value.numeral);
      }
      DocumentParsed(text, false);
      ReadOpening(text + [NUL], d);
    }
  }
}
