/** What the printer of 3rdparty/cjson/cJSON.c writes, as a text of JsonSyntax, and that parsing undoes printing for
    both print formats. */
module JsonRoundTrip {
  import opened Bytes
  import opened Decimals
  import opened Json
  import opened JsonString
  import opened JsonNumber
  import opened JsonGrammar
  import opened JsonSyntax
  import opened JsonUnicode
  import opened JsonNumeral
  import opened JsonReading

  // ---------------------------------------------------------------- the layout

  /** A byte of a string as it is written: by itself, or as the shortest escape if it is a quote, a backslash or a
      control character; unit escapes have lower-case digits. */
  function Written(c: Byte): Piece {
    if c == 34 || c == 92 then Short(c)
    else if c == 8 then Short(98)
    else if c == 12 then Short(102)
    else if c == 10 then Short(110)
    else if c == 13 then Short(114)
    else if c == 9 then Short(116)
    else if c < 32 then Escaped([48, 48, 48 + c / 16, if c % 16 < 10 then 48 + c % 16 else 97 + (c % 16 - 10)])
    else Itself(c)
  }

  function AllWritten(s: Text): (ps: seq<Piece>)
    ensures |ps| == |s| && forall k :: 0 <= k < |s| ==> ps[k] == Written(s[k])
  {
    if s == [] then [] else [Written(s[0])] + AllWritten(s[1..])
  }

  function WrittenInteger(n: int): Numeral {
    Numeral(n < 0, Digits(if n < 0 then -n else n), false, [], NoExponent)
  }

  function TabGap(format: bool, n: nat): Gap { if format then seq(n, _ => Space(9)) else [] }

  /** A line break and n tabs, if the print is formatted. */
  function NewLine(format: bool, n: nat): Gap { if format then [Space(10)] + TabGap(format, n) else [] }

  /** A printed value inside `level` arrays and objects. In the formatted print a blank stands behind each comma of an
      array and a tab behind each colon, every member of an object and its closing brace stand on lines of their own,
      indented by tabs; otherwise there is no white space at all. */
  function Layout(v: Value, format: bool, level: nat): Doc
    decreases v
  {
    match v
    case Null => NullDoc
    case False => FalseDoc
    case True => TrueDoc
    case Number(r) => NumberDoc(WrittenInteger(r.Floor))
    case String(s) => StringDoc(AllWritten(s))
    case Array(items) => ArrayDoc([], LaidItems(items, format, level + 1, []))
    case Object(members) => ObjectDoc(NewLine(format, level), LaidMembers(members, format, level + 1))
  }

  function LaidItems(items: seq<Value>, format: bool, level: nat, before: Gap): seq<ItemDoc>
    decreases items
  {
    if items == [] then []
    else
      [ItemDoc(before, Layout(items[0], format, level), [])]
      + LaidItems(items[1..], format, level, if format then [Space(32)] else [])
  }

  function LaidMember(m: Member, format: bool, level: nat, after: Gap): MemberDoc
    decreases m, 1
  {
    MemberDoc(NewLine(format, level), AllWritten(m.key), [], if format then [Space(9)] else [],
              Layout(m.value, format, level), after)
  }

  function LaidMembers(members: seq<Member>, format: bool, level: nat): seq<MemberDoc>
    requires level > 0
    decreases members
  {
    if members == [] then []
    else
      [LaidMember(members[0], format, level, if |members| == 1 then NewLine(format, level - 1) else [])]
      + LaidMembers(members[1..], format, level)
  }

  // ---------------------------------------------------------------- the print has that layout

  lemma WrittenText(c: Byte)
    ensures PieceText(Written(c)) == EscapeByte(c) && IsPiece([Written(c)], 0) && !Written(c).Lone?
  {
    if c < 32 {
      assert [BACKSLASH, 117] + [48, 48, HexDigit(c / 16, false), HexDigit(c % 16, false)] == UnitEscape(c, LOWER);
    }
  }

  lemma {:induction false} AllWrittenText(s: Text)
    ensures ArePieces(AllWritten(s)) && Body(AllWritten(s), 0) == Escape(s)
  {
    hide EscapeByte, PieceText, Written;
    if s != [] {
      WrittenText(s[0]);
      AllWrittenText(s[1..]);
      PiecesBehind(Written(s[0]), AllWritten(s[1..]));
      assert AllWritten(s) == [Written(s[0])] + AllWritten(s[1..]);
    }
  }

  lemma {:induction false} EscapeScanned(s: Text)
    ensures Scanned(Escape(s))
  {
    if s != [] {
      EscapeScanned(s[1..]);
      var e, rest := EscapeByte(s[0]), Escape(s[1..]);
      assert (e + rest)[|e|..] == rest;
      ScannedByte(s[0], rest);
    }
  }

  lemma ScannedByte(c: Byte, rest: Text)
    requires Scanned(rest)
    ensures Scanned(EscapeByte(c) + rest)
  {
    var t := EscapeByte(c) + rest;
    if |EscapeByte(c)| == 6 {
      assert t[2..][1..] == t[3..] && t[3..][1..] == t[4..] && t[4..][1..] == t[5..] && t[5..][1..] == rest;
      assert Scanned(t[5..]) && Scanned(t[4..]) && Scanned(t[3..]) && Scanned(t[2..]);
    } else {
      assert t[|EscapeByte(c)|..] == rest;
    }
  }

  /** A printed string is a literal that means the string. */
  lemma StringLaidOut(s: Text)
    requires NulFree(s)
    ensures var ps := AllWritten(s); IsLiteral(ps) && LiteralText(ps) == Quoted(s) && LiteralValue(ps) == s
  {
    hide Escape, Decode, Meaning, Body, Scanned, CString, Written, AllWritten;
    var ps := AllWritten(s);
    AllWrittenText(s);
    EscapeScanned(s);
    DecodeEscape(s);
    DecodePieces(ps, 0);
    CStringOfNulFree(s);
  }

  lemma IntegerLaidOut(n: int)
    requires -PRINTABLE_LIMIT < n < PRINTABLE_LIMIT
    ensures var m := WrittenInteger(n);
            IsNumeral(m) && NumeralText(m) == Decimal(n) && NumeralValue(m) == n as real
  {
    DecimalIsShort(n);
    var m := WrittenInteger(n);
    assert m.whole + (([] + ([] + []))) == m.whole;
    DigitsValueOfDigits(if n < 0 then -n else n);
    DigitsAreWhole(m.whole);
    assert TenTo(0) == 1.0 && FractionValue([]) == 0.0;
  }

  /** Integers are written without needless zeros. */
  lemma {:induction false} NoLeadingZero(n: nat)
    ensures Digits(n)[0] == 48 ==> n == 0 && Digits(n) == [48]
  {
    if n >= 10 {
      NoLeadingZero(n / 10);
    }
  }

  lemma {:induction false} TabsText(n: nat)
    ensures IsGap(seq(n, _ => Space(9)), false) && GapText(seq(n, _ => Space(9))) == Tabs(n)
  {
    var g := seq(n, _ => Space(9));
    if n > 0 {
      TabsText(n - 1);
      assert g[1..] == seq(n - 1, _ => Space(9));
      assert [TAB] + Tabs(n - 1) == Tabs(n);
    } else {
      assert g == [];
    }
  }

  lemma NewLineText(format: bool, n: nat)
    ensures IsGap(NewLine(format, n), false) && GapText(NewLine(format, n)) == LineBreak(format) + Indent(format, n)
  {
    TabsText(n);
    var g := TabGap(format, n);
    if format {
      assert ([Space(10)] + g)[1..] == g;
    }
  }

  /** The printed text of a value is that of its layout, which writes the value. */
  lemma {:induction false} LayoutText(v: Value, format: bool, level: nat)
    requires Printable(v)
    ensures var d := Layout(v, format, level);
            IsDoc(d, false) && DocText(d) == Render(v, format, level) && DocValue(d) == v
    decreases v, 3
  {
    hide RenderItems, RenderMembers, LaidItems, LaidMembers, ItemsText, MembersText, Quoted, LiteralText, LiteralValue,
      IsLiteral, AllWritten, WrittenInteger, NumeralText, NumeralValue, IsNumeral, Decimal, GapText, NewLine, LineBreak,
      Indent, ItemValues, MemberValues, AreItems, AreMembers;
    match v
    case Number(r) => IntegerLaidOut(r.Floor);
    case String(s) => StringLaidOut(s);
    case Array(items) =>
      ItemsLaidOut(items, format, level + 1, []);
      ArrayText(items, format, level);
    case Object(members) =>
      MembersLaidOut(members, format, level + 1);
      ObjectText(members, format, level);
    case _ =>
  }

  lemma ArrayText(items: seq<Value>, format: bool, level: nat)
    requires ItemsPrintable(items)
    requires var ds := LaidItems(items, format, level + 1, []);
             (ds == [] <==> items == [])
             && (items != [] ==> ItemsText(ds) == GapText([]) + (RenderItems(items, format, level + 1) + [RBRACKET]))
    ensures DocText(Layout(Array(items), format, level)) == Render(Array(items), format, level)
  {
    hide LaidItems, ItemsText, Layout, Render;
    RenderOfArray(items, format, level);
    LayoutOfArray(items, format, level);
    BlankText(format);
    if items == [] {
      assert RenderItems(items, format, level + 1) == [];
    }
  }

  lemma RenderOfArray(items: seq<Value>, format: bool, level: nat)
    ensures ItemsPrintable(items) ==>
              Render(Array(items), format, level) == [LBRACKET] + (RenderItems(items, format, level + 1) + [RBRACKET])
  {
    hide RenderItems;
  }

  lemma LayoutOfArray(items: seq<Value>, format: bool, level: nat)
    ensures Layout(Array(items), format, level) == ArrayDoc([], LaidItems(items, format, level + 1, []))
  {
  }

  lemma BlankText(format: bool)
    ensures var blank := if format then [Space(32)] else [];
            IsGap(blank, false) && [COMMA] + GapText(blank) == ItemGap(format)
    ensures GapText([]) == [] && IsGap([], false)
  {
  }

  lemma {:induction false} ItemsLaidOut(items: seq<Value>, format: bool, level: nat, before: Gap)
    requires ItemsPrintable(items) && IsGap(before, false)
    ensures var ds := LaidItems(items, format, level, before);
            AreItems(ds, false) && ItemValues(ds) == items && (ds == [] <==> items == [])
            && (items != [] ==> ItemsText(ds) == GapText(before) + (RenderItems(items, format, level) + [RBRACKET]))
    decreases items, 2
  {
    hide Layout, Render, RenderItems, DocText, DocValue, IsDoc, ItemsText, ItemText, IsGap, GapText;
    if items != [] {
      var blank := if format then [Space(32)] else [];
      var x := ItemDoc(before, Layout(items[0], format, level), []);
      var rest := LaidItems(items[1..], format, level, blank);
      assert LaidItems(items, format, level, before) == [x] + rest && ([x] + rest)[1..] == rest;
      LayoutText(items[0], format, level);
      BlankText(format);
      ItemsLaidOut(items[1..], format, level, blank);
      assert [items[0]] + items[1..] == items;
      ItemsJoin(items, format, level, x, rest);
    }
  }

  lemma ItemsJoin(items: seq<Value>, format: bool, level: nat, x: ItemDoc, rest: seq<ItemDoc>)
    requires items != [] && ItemsPrintable(items)
    requires x.after == [] && DocText(x.value) == Render(items[0], format, level)
    requires rest == [] <==> items[1..] == []
    requires rest != [] ==> ItemsText(rest) == GapText(if format then [Space(32)] else [])
                                               + (RenderItems(items[1..], format, level) + [RBRACKET])
    ensures ItemsText([x] + rest) == GapText(x.before) + (RenderItems(items, format, level) + [RBRACKET])
  {
    hide Render, DocText, GapText;
    BlankText(format);
    var first, gap := Render(items[0], format, level), ItemGap(format);
    assert ([x] + rest)[1..] == rest;
    assert ItemText(x) == GapText(x.before) + first;
    if rest != [] {
      var more := RenderItems(items[1..], format, level) + [RBRACKET];
      assert [COMMA] + ItemsText(rest) == gap + more;
      assert RenderItems(items, format, level) + [RBRACKET] == first + (gap + more);
    }
  }

  /** A printed member list in front of which a line starts, with its closing brace. */
  function LinesText(members: seq<Member>, format: bool, level: nat): Text
    requires MembersPrintable(members) && level > 0
  {
    LineBreak(format) + (RenderMembers(members, format, level) + (Indent(format, level - 1) + [RBRACE]))
  }

  lemma ObjectText(members: seq<Member>, format: bool, level: nat)
    requires MembersPrintable(members)
    requires var ds := LaidMembers(members, format, level + 1);
             (ds == [] <==> members == [])
             && (members != [] ==> MembersText(ds) == LinesText(members, format, level + 1))
    ensures var d := Layout(Object(members), format, level);
            DocText(d) == Render(Object(members), format, level) && d.ObjectDoc? && IsGap(d.inner, false)
  {
    hide LaidMembers, MembersText, Layout, Render, NewLine, LineBreak, Indent;
    RenderOfObject(members, format, level);
    LayoutOfObject(members, format, level);
    NewLineText(format, level);
    if members == [] {
      assert RenderMembers(members, format, level + 1) == [];
      var nl, tabs := LineBreak(format), Indent(format, level);
      assert nl + ([] + (tabs + [RBRACE])) == (nl + tabs) + [RBRACE];
    }
  }

  lemma RenderOfObject(members: seq<Member>, format: bool, level: nat)
    ensures MembersPrintable(members) ==>
              Render(Object(members), format, level) == [LBRACE] + LinesText(members, format, level + 1)
  {
    hide RenderMembers, Tabs;
  }

  lemma LayoutOfObject(members: seq<Member>, format: bool, level: nat)
    ensures Layout(Object(members), format, level) ==
            ObjectDoc(NewLine(format, level), LaidMembers(members, format, level + 1))
  {
  }

  lemma {:induction false} MembersLaidOut(members: seq<Member>, format: bool, level: nat)
    requires MembersPrintable(members) && level > 0
    ensures var ds := LaidMembers(members, format, level);
            AreMembers(ds, false) && MemberValues(ds) == members && (ds == [] <==> members == [])
            && (members != [] ==> MembersText(ds) == LinesText(members, format, level))
    decreases members, 2
  {
    hide Layout, LaidMember, Render, RenderMembers, MembersText, MemberText, IsMember, LinesText, LiteralValue,
      DocValue, NewLine;
    if members != [] {
      var after := if |members| == 1 then NewLine(format, level - 1) else [];
      var x := LaidMember(members[0], format, level, after);
      var rest := LaidMembers(members[1..], format, level);
      assert LaidMembers(members, format, level) == [x] + rest && ([x] + rest)[1..] == rest;
      AfterIsGap(format, level - 1);
      MemberLaidOut(members[0], format, level, after);
      MembersLaidOut(members[1..], format, level);
      assert [members[0]] + members[1..] == members;
      MembersJoin(members, format, level, x, rest);
    }
  }

  lemma AfterIsGap(format: bool, n: nat)
    ensures IsGap(NewLine(format, n), false) && IsGap([], false)
  {
    NewLineText(format, n);
  }

  lemma {:induction false} MemberLaidOut(m: Member, format: bool, level: nat, after: Gap)
    requires NulFree(m.key) && Printable(m.value) && IsGap(after, false)
    ensures var x := LaidMember(m, format, level, after);
            IsMember(x, false) && Member(LiteralValue(x.key), DocValue(x.value)) == m
            && MemberText(x) == LineBreak(format) + (RenderMember(m, format, level) + GapText(after))
    decreases m, 4
  {
    hide Layout, Render, DocText, DocValue, IsDoc, LiteralText, LiteralValue, IsLiteral, NewLine, Quoted, AllWritten,
      LineBreak, Indent;
    LayoutText(m.value, format, level);
    StringLaidOut(m.key);
    NewLineText(format, level);
    ColonText(format);
    var x := LaidMember(m, format, level, after);
    MemberConcat(LineBreak(format), Indent(format, level), Quoted(m.key), KeyGap(format),
                 Render(m.value, format, level), GapText(after), GapText(x.beforeValue));
  }

  lemma ColonText(format: bool)
    ensures var tab := if format then [Space(9)] else [];
            IsGap(tab, false) && [COLON] + GapText(tab) == KeyGap(format)
    ensures GapText([]) == [] && IsGap([], false)
  {
  }

  lemma MemberConcat(nl: Text, tabs: Text, key: Text, gap: Text, value: Text, after: Text, tab: Text)
    requires [COLON] + tab == gap
    ensures (nl + tabs) + (key + ([] + ([COLON] + (tab + (value + after)))))
            == nl + ((tabs + key + gap + value) + after)
  {
    assert [COLON] + (tab + (value + after)) == gap + (value + after);
  }

  lemma MembersTextOf(x: MemberDoc, rest: seq<MemberDoc>)
    ensures MembersText([x] + rest) == MemberText(x) + if rest == [] then [RBRACE] else [COMMA] + MembersText(rest)
  {
    hide MemberText;
    assert ([x] + rest)[1..] == rest;
  }

  lemma RenderMembersOf(members: seq<Member>, format: bool, level: nat)
    requires members != [] && MembersPrintable(members)
    ensures RenderMembers(members, format, level) ==
            RenderMember(members[0], format, level) + (if members[1..] != [] then [COMMA] else []) + LineBreak(format)
            + RenderMembers(members[1..], format, level)
    ensures RenderMembers([], format, level) == []
  {
    hide RenderMember, LineBreak;
  }

  lemma JoinLast(nl: Text, first: Text, tabs: Text, brace: Text)
    ensures (nl + (first + (nl + tabs))) + brace == nl + ((first + [] + nl + []) + (tabs + brace))
  {
  }

  lemma JoinNext(nl: Text, first: Text, comma: Text, more: Text, tail: Text)
    ensures (nl + (first + [])) + (comma + (nl + (more + tail))) == nl + ((first + comma + nl + more) + tail)
  {
  }

  lemma MembersJoin(members: seq<Member>, format: bool, level: nat, x: MemberDoc, rest: seq<MemberDoc>)
    requires members != [] && MembersPrintable(members) && level > 0
    requires var after := if |members| == 1 then NewLine(format, level - 1) else [];
             MemberText(x) == LineBreak(format) + (RenderMember(members[0], format, level) + GapText(after))
    requires rest == [] <==> members[1..] == []
    requires rest != [] ==> MembersText(rest) == LinesText(members[1..], format, level)
    ensures MembersText([x] + rest) == LinesText(members, format, level)
  {
    MembersTextOf(x, rest);
    RenderMembersOf(members, format, level);
    ColonText(format);
    NewLineText(format, level - 1);
    hide MembersText, MemberText, RenderMember, RenderMembers, LineBreak, Indent, NewLine, GapText;
    var nl, first, tabs := LineBreak(format), RenderMember(members[0], format, level), Indent(format, level - 1);
    if rest == [] {
      JoinLast(nl, first, tabs, [RBRACE]);
    } else {
      JoinNext(nl, first, [COMMA], RenderMembers(members[1..], format, level), tabs + [RBRACE]);
    }
  }

  // ---------------------------------------------------------------- reading it back

  /** Reading back the printed text of v where it stands in s, at any depth. */
  lemma ReadBack(v: Value, format: bool, level: nat, s: Text, i: nat, depth: nat)
    requires Terminated(s) && Printable(v) && depth <= NESTING_LIMIT
    requires At(s, i, Render(v, format, level))
    requires var e := i + |Render(v, format, level)|; e < |s| && !IsNumberByte(s[e])
    ensures ParseValue(s, i, depth) == Within(depth, Nesting(v), v, i + |Render(v, format, level)|)
  {
    LevelsAreThousand();
    hide *;
    LayoutText(v, format, level);
    var d := Layout(v, format, level);
    NumberText(d);
    NumberIsNumeral(d);
    if d.NumberDoc? {
      Followed(s, i, d.numeral);
    }
    ReadDoc(s, i, d, depth);
  }

  lemma LayoutDocument(v: Value, format: bool)
    requires Printable(v)
    ensures var d := Document(false, [], Layout(v, format, 0), []);
            IsDocument(d, false) && DocumentText(d) == Opening(d) == Render(v, format, 0) && DocValue(d.value) == v
  {
    hide Layout, Render, DocText, DocValue, IsDoc;
    LayoutText(v, format, 0);
  }

  /** Parsing a printed value gives back exactly that value, unless it nests deeper than the limit,
      in which case it is rejected.  This holds for the formatted and for the unformatted print. */
  lemma PrintThenParse(v: Value, format: bool, requireEnd: bool)
    requires Printable(v)
    ensures NulFree(Render(v, format, 0))
    ensures ParseDocument(Render(v, format, 0), requireEnd) ==
            Within(0, Nesting(v), v, |Render(v, format, 0)|)
  {
    hide *;
    RenderNulFree(v, format, 0);
    LayoutDocument(v, format);
    ReadDocument(Document(false, [], Layout(v, format, 0), []), requireEnd);
  }

  /** A tower of arrays, and of objects where kinds[i] says so, with an empty one at its top. */
  function Nested(kinds: seq<bool>): Value
    requires kinds != []
  {
    if |kinds| == 1 then (if kinds[0] then Object([]) else Array([]))
    else if kinds[0] then Object([Member([], Nested(kinds[1..]))])
    else Array([Nested(kinds[1..])])
  }

  lemma {:induction false} NestedShape(kinds: seq<bool>)
    requires kinds != []
    ensures Printable(Nested(kinds)) && Nesting(Nested(kinds)) == |kinds|
  {
    NothingInside();
    if |kinds| > 1 {
      var v := Nested(kinds[1..]);
      NestedShape(kinds[1..]);
      assert [v] + [] == [v];
      AddedNesting(v, []);
      assert [Member([], v)] + [] == [Member([], v)];
      AddedMember(Member([], v), []);
    }
  }

  /** Any mixture of arrays and objects is read back up to a thousand levels, and one more is rejected. */
  lemma NestedReadBack(kinds: seq<bool>, format: bool, requireEnd: bool)
    requires kinds != []
    ensures var v := Nested(kinds);
            Printable(v) && NulFree(Render(v, format, 0))
            && ParseDocument(Render(v, format, 0), requireEnd) ==
               if |kinds| <= 1000 then Parsed(v, |Render(v, format, 0)|) else Rejected
  {
    NestedShape(kinds);
    hide Nested, Render, ParseDocument, Nesting, Printable;
    PrintThenParse(Nested(kinds), format, requireEnd);
  }

  /** Whatever text was accepted: if the value read from it is printable, printing and parsing again
      gives the same value. */
  lemma ParsePrintParse(text: Text, requireEnd: bool, format: bool)
    requires NulFree(text)
    requires var r := ParseDocument(text, requireEnd); r.Parsed? && Printable(r.value)
    ensures var v := ParseDocument(text, requireEnd).value;
            NulFree(Render(v, format, 0)) &&
            ParseDocument(Render(v, format, 0), true) == Parsed(v, |Render(v, format, 0)|)
  {
    hide Render, Nesting, Printable, ParseDocument;
    DocumentParsed(text, requireEnd);
    DocumentParsed(text, false);
    var d := OpeningRead(text);
    PrintThenParse(ParseDocument(text, requireEnd).value, format, true);
  }
}
