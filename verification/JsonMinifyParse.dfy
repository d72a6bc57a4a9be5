/** What minifying of 3rdparty/cjson/cJSON.c makes of JSON with comments, and how the parser reads it. */
module JsonMinifyParse {
  import opened Bytes
  import opened Decimals
  import opened Json
  import opened JsonString
  import opened JsonNumber
  import opened JsonGrammar
  import opened JsonMinify
  import opened JsonTokens
  import opened JsonSyntax
  import opened JsonNumeral
  import opened JsonReading
  import opened JsonRoundTrip

  // ---------------------------------------------------------------- what is left of a value

  /** Comments go, and so do blanks, tabs and line ends; other control characters stay. */
  function Left(g: Gap): Gap {
    if g == [] then []
    else if g[0].Space? && g[0].b !in {32, 9, 13, 10} then [g[0]] + Left(g[1..])
    else Left(g[1..])
  }

  /** The value with what is left of its gaps. */
  function Stripped(d: Doc): Doc {
    match d
    case ArrayDoc(inner, items) => ArrayDoc(Left(inner), StrippedItems(items))
    case ObjectDoc(inner, members) => ObjectDoc(Left(inner), StrippedMembers(members))
    case _ => d
  }

  function StrippedItems(items: seq<ItemDoc>): seq<ItemDoc> {
    if items == [] then []
    else [ItemDoc(Left(items[0].before), Stripped(items[0].value), Left(items[0].after))] + StrippedItems(items[1..])
  }

  function StrippedMember(m: MemberDoc): MemberDoc {
    MemberDoc(Left(m.before), m.key, Left(m.afterKey), Left(m.beforeValue), Stripped(m.value), Left(m.after))
  }

  function StrippedMembers(members: seq<MemberDoc>): seq<MemberDoc> {
    if members == [] then [] else [StrippedMember(members[0])] + StrippedMembers(members[1..])
  }

  function StrippedDocument(d: Document): Document {
    Document(d.mark, Left(d.before), Stripped(d.value), Left(d.after))
  }

  // ---------------------------------------------------------------- it is a value without comments, and the same

  lemma {:induction false} LeftIsGap(g: Gap)
    requires IsGap(g, true)
    ensures IsGap(Left(g), false) && Left(Left(g)) == Left(g)
  {
    if g != [] {
      LeftIsGap(g[1..]);
      if g[0].Space? && g[0].b !in {32, 9, 13, 10} {
        assert ([g[0]] + Left(g[1..]))[1..] == Left(g[1..]);
      }
    }
  }

  lemma {:induction false} StrippedIsDoc(d: Doc)
    requires IsDoc(d, true)
    ensures IsDoc(Stripped(d), false) && DocValue(Stripped(d)) == DocValue(d) && Stripped(Stripped(d)) == Stripped(d)
    decreases d
  {
    hide Left, IsGap, IsLiteral, IsNumeral, LiteralValue, NumeralValue, StrippedItems, StrippedMembers, AreItems,
      AreMembers, ItemValues, MemberValues;
    match d
    case ArrayDoc(inner, items) =>
      LeftIsGap(inner);
      StrippedAreItems(items);
    case ObjectDoc(inner, members) =>
      LeftIsGap(inner);
      StrippedAreMembers(members);
    case _ =>
  }

  lemma {:induction false} StrippedAreItems(items: seq<ItemDoc>)
    requires AreItems(items, true)
    ensures var ds := StrippedItems(items);
            AreItems(ds, false) && ItemValues(ds) == ItemValues(items) && StrippedItems(ds) == ds
    decreases items
  {
    hide Left, IsGap, IsDoc, DocValue, Stripped;
    if items != [] {
      var rest := StrippedItems(items[1..]);
      LeftIsGap(items[0].before);
      LeftIsGap(items[0].after);
      StrippedIsDoc(items[0].value);
      StrippedAreItems(items[1..]);
      assert StrippedItems(items)[1..] == rest;
    }
  }

  lemma {:induction false} StrippedIsMember(m: MemberDoc)
    requires IsMember(m, true)
    ensures var x := StrippedMember(m);
            IsMember(x, false) && x.key == m.key && DocValue(x.value) == DocValue(m.value) && StrippedMember(x) == x
    decreases m, 0
  {
    hide Left, IsGap, IsDoc, DocValue, Stripped, IsLiteral;
    LeftIsGap(m.before);
    LeftIsGap(m.afterKey);
    LeftIsGap(m.beforeValue);
    LeftIsGap(m.after);
    StrippedIsDoc(m.value);
  }

  lemma {:induction false} StrippedAreMembers(members: seq<MemberDoc>)
    requires AreMembers(members, true)
    ensures var ds := StrippedMembers(members);
            AreMembers(ds, false) && MemberValues(ds) == MemberValues(members) && StrippedMembers(ds) == ds
    decreases members
  {
    hide StrippedMember, IsMember, DocValue, LiteralValue;
    if members != [] {
      var rest := StrippedMembers(members[1..]);
      StrippedIsMember(members[0]);
      StrippedAreMembers(members[1..]);
      assert StrippedMembers(members)[1..] == rest;
    }
  }

  // ---------------------------------------------------------------- minifying leaves exactly that

  lemma ChunkShrinks(c: Chunk, rest: Text)
    requires IsChunk(c, true)
    ensures Shrinks(ChunkText(c), if c.Space? && c.b !in {32, 9, 13, 10} then [c.b] else [], rest)
  {
    hide Shrinks;
    match c
    case Space(b) => TokenShrinks(if b in {32, 9, 13, 10} then Blank(b) else Other(b), rest);
    case Line(body) =>
      TokenShrinks(LineToken(body), [NEWLINE] + rest);
      TokenShrinks(Blank(NEWLINE), rest);
      var nothing: Text := [];
      assert nothing + nothing == nothing;
      Chain([SLASH, SLASH] + body, nothing, [NEWLINE], nothing, rest);
      assert [SLASH, SLASH] + (body + [NEWLINE]) == ([SLASH, SLASH] + body) + [NEWLINE];
    case Block(inner) => TokenShrinks(BlockToken(inner), rest);
  }

  /** White space and comments shrink to the control characters among them. */
  lemma {:induction false} GapShrinks(g: Gap, rest: Text)
    requires IsGap(g, true)
    ensures Shrinks(GapText(g), GapText(Left(g)), rest)
  {
    hide Shrinks, ChunkText, IsChunk;
    if g == [] {
      ShrinksNothing(rest);
    } else {
      var keep := if g[0].Space? && g[0].b !in {32, 9, 13, 10} then [g[0].b] else [];
      ChunkShrinks(g[0], GapText(g[1..]) + rest);
      GapShrinks(g[1..], rest);
      Chain(ChunkText(g[0]), keep, GapText(g[1..]), GapText(Left(g[1..])), rest);
      LeftText(g);
    }
  }

  lemma LeftText(g: Gap)
    requires g != []
    ensures var keep := if g[0].Space? && g[0].b !in {32, 9, 13, 10} then [g[0].b] else [];
            GapText(Left(g)) == keep + GapText(Left(g[1..]))
  {
    var rest := Left(g[1..]);
    assert ([g[0]] + rest)[1..] == rest;
    assert [] + GapText(rest) == GapText(rest);
  }

  lemma NumeralPlain(n: Numeral)
    requires IsNumeral(n)
    ensures forall k :: 0 <= k < |NumeralText(n)| ==> Plain(NumeralText(n)[k])
  {
    hide NumeralText;
    forall k: nat | k < |NumeralText(n)| ensures Plain(NumeralText(n)[k]) {
      NumeralBytes(n, k);
    }
  }

  lemma LiteralShrinks(ps: seq<Piece>, rest: Text)
    requires IsLiteral(ps)
    ensures Shrinks(LiteralText(ps), LiteralText(ps), rest)
  {
    hide Shrinks, Body, Scanned, Unpaired, ArePieces;
    TokenShrinks(Literal(Body(ps, 0)), rest);
  }

  /** A value with white space and comments shrinks to what is left of it, whatever follows. */
  lemma {:induction false} DocShrinks(d: Doc, rest: Text)
    requires IsDoc(d, true)
    ensures Shrinks(DocText(d), DocText(Stripped(d)), rest)
    decreases d, 2
  {
    hide Shrinks, IsNumeral, NumeralText, IsLiteral, LiteralText, GapText, ItemsText, MembersText, Left, StrippedItems,
      StrippedMembers, AreItems, AreMembers, IsGap;
    match d
    case NullDoc => ShrinksPlain(DocText(d), rest);
    case FalseDoc => ShrinksPlain(DocText(d), rest);
    case TrueDoc => ShrinksPlain(DocText(d), rest);
    case NumberDoc(n) =>
      NumeralPlain(n);
      ShrinksPlain(NumeralText(n), rest);
    case StringDoc(ps) => LiteralShrinks(ps, rest);
    case ArrayDoc(inner, items) =>
      if items != [] {
        ItemsShrink(items, rest);
        Prefixes(LBRACKET, ItemsText(items), ItemsText(StrippedItems(items)), rest);
      } else {
        Enclosed(LBRACKET, inner, RBRACKET, rest);
      }
      StrippedNonEmpty(items, []);
    case ObjectDoc(inner, members) =>
      if members != [] {
        MembersShrink(members, rest);
        Prefixes(LBRACE, MembersText(members), MembersText(StrippedMembers(members)), rest);
      } else {
        Enclosed(LBRACE, inner, RBRACE, rest);
      }
      StrippedNonEmpty([], members);
  }

  lemma StrippedNonEmpty(items: seq<ItemDoc>, members: seq<MemberDoc>)
    ensures StrippedItems(items) == [] <==> items == []
    ensures StrippedMembers(members) == [] <==> members == []
  {
  }

  /** A byte that is kept, in front of what shrinks. */
  lemma Prefixes(c: Byte, t: Text, u: Text, rest: Text)
    requires Plain(c) && Shrinks(t, u, rest)
    ensures Shrinks([c] + t, [c] + u, rest)
  {
    hide Shrinks;
    ShrinksPlain([c], t + rest);
    Chain([c], [c], t, u, rest);
  }

  lemma Enclosed(open: Byte, g: Gap, close: Byte, rest: Text)
    requires Plain(open) && Plain(close) && IsGap(g, true)
    ensures Shrinks([open] + (GapText(g) + [close]), [open] + (GapText(Left(g)) + [close]), rest)
  {
    hide Shrinks, Left, GapText, IsGap;
    ShrinksPlain([close], rest);
    GapShrinks(g, [close] + rest);
    Chain(GapText(g), GapText(Left(g)), [close], [close], rest);
    Prefixes(open, GapText(g) + [close], GapText(Left(g)) + [close], rest);
  }

  lemma {:induction false} ItemShrinks(x: ItemDoc, rest: Text)
    requires IsItem(x, true)
    ensures Shrinks(ItemText(x), ItemText(ItemDoc(Left(x.before), Stripped(x.value), Left(x.after))), rest)
    decreases x, 0
  {
    hide Shrinks, IsDoc, IsGap, GapText, DocText, Left, Stripped;
    var before, value, after := GapText(x.before), DocText(x.value), GapText(x.after);
    var before', value', after' := GapText(Left(x.before)), DocText(Stripped(x.value)), GapText(Left(x.after));
    GapShrinks(x.after, rest);
    DocShrinks(x.value, after + rest);
    Chain(value, value', after, after', rest);
    GapShrinks(x.before, (value + after) + rest);
    Chain(before, before', value + after, value' + after', rest);
  }

  lemma {:induction false} ItemsShrink(items: seq<ItemDoc>, rest: Text)
    requires items != [] && AreItems(items, true)
    ensures Shrinks(ItemsText(items), ItemsText(StrippedItems(items)), rest)
    decreases items, 1
  {
    hide Shrinks, IsItem, ItemText, Left, Stripped;
    var x := ItemDoc(Left(items[0].before), Stripped(items[0].value), Left(items[0].after));
    var more := StrippedItems(items[1..]);
    var tail, tail' := [RBRACKET], [RBRACKET];
    assert ([x] + more)[1..] == more;
    if |items| == 1 {
      assert more == [];
      ShrinksPlain(tail, rest);
    } else {
      StrippedNonEmpty(items[1..], []);
      ItemsShrink(items[1..], rest);
      tail, tail' := [COMMA] + ItemsText(items[1..]), [COMMA] + ItemsText(more);
      Prefixes(COMMA, ItemsText(items[1..]), ItemsText(more), rest);
    }
    ItemShrinks(items[0], tail + rest);
    Chain(ItemText(items[0]), ItemText(x), tail, tail', rest);
  }

  lemma {:induction false} MemberShrinks(m: MemberDoc, rest: Text)
    requires IsMember(m, true)
    ensures Shrinks(MemberText(m), MemberText(StrippedMember(m)), rest)
    decreases m, 1
  {
    hide Shrinks, IsDoc, IsGap, GapText, DocText, Left, Stripped, IsLiteral, LiteralText, ItemText;
    var x := ItemDoc(m.beforeValue, m.value, m.after);
    var x' := ItemDoc(Left(m.beforeValue), Stripped(m.value), Left(m.after));
    ValueShrinks(m, rest);
    Prefixes(COLON, ItemText(x), ItemText(x'), rest);
    var t, t' := [COLON] + ItemText(x), [COLON] + ItemText(x');
    GapShrinks(m.afterKey, t + rest);
    Chain(GapText(m.afterKey), GapText(Left(m.afterKey)), t, t', rest);
    t, t' := GapText(m.afterKey) + t, GapText(Left(m.afterKey)) + t';
    LiteralShrinks(m.key, t + rest);
    Chain(LiteralText(m.key), LiteralText(m.key), t, t', rest);
    t, t' := LiteralText(m.key) + t, LiteralText(m.key) + t';
    GapShrinks(m.before, t + rest);
    Chain(GapText(m.before), GapText(Left(m.before)), t, t', rest);
    MemberTextOf(m);
    MemberTextOf(StrippedMember(m));
  }

  lemma MemberTextOf(m: MemberDoc)
    ensures MemberText(m) == GapText(m.before) + (LiteralText(m.key) + (GapText(m.afterKey)
                             + ([COLON] + ItemText(ItemDoc(m.beforeValue, m.value, m.after)))))
  {
  }

  lemma {:induction false} ValueShrinks(m: MemberDoc, rest: Text)
    requires IsMember(m, true)
    ensures var x := ItemDoc(m.beforeValue, m.value, m.after);
            var x' := ItemDoc(Left(m.beforeValue), Stripped(m.value), Left(m.after));
            Shrinks(ItemText(x), ItemText(x'), rest)
    decreases m, 0
  {
    hide Shrinks, IsDoc, IsGap, GapText, DocText, Left, Stripped, IsLiteral;
    var before, value, after := GapText(m.beforeValue), DocText(m.value), GapText(m.after);
    var before', value', after' := GapText(Left(m.beforeValue)), DocText(Stripped(m.value)), GapText(Left(m.after));
    GapShrinks(m.after, rest);
    DocShrinks(m.value, after + rest);
    Chain(value, value', after, after', rest);
    GapShrinks(m.beforeValue, (value + after) + rest);
    Chain(before, before', value + after, value' + after', rest);
  }

  lemma {:induction false} MembersShrink(members: seq<MemberDoc>, rest: Text)
    requires members != [] && AreMembers(members, true)
    ensures Shrinks(MembersText(members), MembersText(StrippedMembers(members)), rest)
    decreases members, 1
  {
    hide Shrinks, IsMember, MemberText, StrippedMember;
    var x := StrippedMember(members[0]);
    var more := StrippedMembers(members[1..]);
    var tail, tail' := [RBRACE], [RBRACE];
    assert ([x] + more)[1..] == more;
    if |members| == 1 {
      assert more == [];
      ShrinksPlain(tail, rest);
    } else {
      StrippedNonEmpty([], members[1..]);
      MembersShrink(members[1..], rest);
      tail, tail' := [COMMA] + MembersText(members[1..]), [COMMA] + MembersText(more);
      Prefixes(COMMA, MembersText(members[1..]), MembersText(more), rest);
    }
    MemberShrinks(members[0], tail + rest);
    Chain(MemberText(members[0]), MemberText(x), tail, tail', rest);
  }

  // ---------------------------------------------------------------- documents

  /** Nothing, or a comment up to the end of the text. */
  predicate IsLastLine(tail: Text) {
    tail == [] || (|tail| > 1 && tail[0] == tail[1] == SLASH && NEWLINE !in tail)
  }

  lemma LastLineIsDropped(tail: Text)
    requires IsLastLine(tail)
    ensures Minified(tail) == Some([])
  {
    hide Minified, Shrinks;
    MinifyStart([]);
    if tail != [] {
      assert forall x <- tail[2..] :: x in tail;
      assert tail == TokenText(LineToken(tail[2..]));
      TokenShrinks(LineToken(tail[2..]), []);
      assert Shrinks(tail, [], []);
      ShrinksAll(tail, []);
    }
  }

  lemma ShrinksAll(t: Text, u: Text)
    requires Shrinks(t, u, [])
    ensures Minified(t) == Some(u)
  {
    hide Minified;
    assert t + [] == t;
    MinifyStart(u);
  }

  lemma MarkShrinks(mark: bool, rest: Text)
    ensures Shrinks(Mark(mark), Mark(mark), rest)
  {
    hide Shrinks;
    ShrinksPlain(Mark(mark), rest);
  }

  /** JSON with comments, a last one perhaps without its line end, is minified to what is left of it. */
  lemma MinifyDocument(d: Document, tail: Text)
    requires IsDocument(d, true) && IsLastLine(tail)
    ensures Minified(DocumentText(d) + tail) == Some(DocumentText(StrippedDocument(d)))
  {
    hide Minified, Shrinks, IsDoc, IsGap, GapText, DocText, Left, Stripped, IsLastLine, Opening;
    var e := StrippedDocument(d);
    OpeningText(d);
    OpeningText(e);
    var mark, before, value, after := Mark(d.mark), GapText(d.before), DocText(d.value), GapText(d.after);
    GapShrinks(d.after, tail);
    DocShrinks(d.value, after + tail);
    GapShrinks(d.before, value + (after + tail));
    MarkShrinks(d.mark, (before + value) + (after + tail));
    Chain(before, GapText(e.before), value, DocText(e.value), after + tail);
    Chain(mark, mark, before + value, GapText(e.before) + DocText(e.value), after + tail);
    Chain(Opening(d), Opening(e), after, GapText(e.after), tail);
    LastLineIsDropped(tail);
    ShrinksTo(DocumentText(d), DocumentText(e), tail);
  }

  lemma ShrinksTo(t: Text, u: Text, rest: Text)
    requires Shrinks(t, u, rest) && Minified(rest) == Some([])
    ensures Minified(t + rest) == Some(u)
  {
    hide Minified;
    assert u + [] == u;
  }

  lemma StrippedIsDocument(d: Document)
    requires IsDocument(d, true)
    ensures var e := StrippedDocument(d);
            IsDocument(e, false) && DocValue(e.value) == DocValue(d.value) && StrippedDocument(e) == e
  {
    hide IsDoc, IsGap, DocValue, Left, Stripped;
    LeftIsGap(d.before);
    LeftIsGap(d.after);
    StrippedIsDoc(d.value);
  }

  lemma {:induction false} MinifiedNulFree(s: Text)
    requires NulFree(s)
    ensures Minified(s).Some? ==> NulFree(Minified(s).value)
    decreases |s|
  {
    if s != [] && MinifyRound(s).Some? {
      assert NulFree(MinifyRound(s).value.keep);
      MinifiedNulFree(s[MinifyRound(s).value.read..]);
    }
  }

  /** What minifying leaves of JSON with comments is read as the value that is written in it, unless it nests too
      deep. */
  lemma MinifyThenParse(d: Document, tail: Text, requireEnd: bool)
    requires IsDocument(d, true) && IsLastLine(tail) && NulFree(DocumentText(d) + tail)
    ensures var m := DocumentText(StrippedDocument(d));
            Minified(DocumentText(d) + tail) == Some(m) && NulFree(m)
            && ParseDocument(m, requireEnd) ==
               Within(0, Nesting(DocValue(d.value)), DocValue(d.value),
                      if requireEnd then |m| else |Opening(StrippedDocument(d))|)
  {
    hide *;
    MinifyDocument(d, tail);
    MinifiedNulFree(DocumentText(d) + tail);
    StrippedIsDocument(d);
    ReadDocument(StrippedDocument(d), requireEnd);
  }

  lemma {:induction false} GapAllowed(g: Gap)
    requires IsGap(g, false)
    ensures IsGap(g, true)
  {
    if g != [] {
      GapAllowed(g[1..]);
    }
  }

  /** Texts without comments are among those with comments. */
  lemma {:induction false} DocAllowed(d: Doc)
    requires IsDoc(d, false)
    ensures IsDoc(d, true)
    decreases d
  {
    hide IsGap, IsLiteral, IsNumeral, AreItems, AreMembers;
    match d
    case ArrayDoc(inner, items) =>
      GapAllowed(inner);
      ItemsAllowed(items);
    case ObjectDoc(inner, members) =>
      GapAllowed(inner);
      MembersAllowed(members);
    case _ =>
  }

  lemma {:induction false} ItemsAllowed(items: seq<ItemDoc>)
    requires AreItems(items, false)
    ensures AreItems(items, true)
    decreases items
  {
    hide IsGap, IsDoc;
    if items != [] {
      GapAllowed(items[0].before);
      DocAllowed(items[0].value);
      GapAllowed(items[0].after);
      ItemsAllowed(items[1..]);
    }
  }

  lemma {:induction false} MembersAllowed(members: seq<MemberDoc>)
    requires AreMembers(members, false)
    ensures AreMembers(members, true)
    decreases members
  {
    hide IsGap, IsDoc, IsLiteral;
    if members != [] {
      GapAllowed(members[0].before);
      GapAllowed(members[0].afterKey);
      GapAllowed(members[0].beforeValue);
      DocAllowed(members[0].value);
      GapAllowed(members[0].after);
      MembersAllowed(members[1..]);
    }
  }

  lemma DocumentAllowed(d: Document)
    requires IsDocument(d, false)
    ensures IsDocument(d, true)
  {
    hide IsDoc, IsGap;
    GapAllowed(d.before);
    DocAllowed(d.value);
    GapAllowed(d.after);
  }

  lemma WithinLimit(v: Value, e: nat)
    ensures Nesting(v) <= 1000 ==> Within(0, Nesting(v), v, e) == Parsed(v, e)
  {
  }

  lemma NoLastLine(t: Text)
    ensures t + [] == t && IsLastLine([])
  {
  }

  /** Text that is accepted up to its end is minified inside itself, the result is accepted up to its end as the
      same value, and minifying it again changes nothing. */
  lemma MinifyKeepsValue(text: Text)
    requires NulFree(text) && ParseDocument(text, true).Parsed?
    ensures Minified(text).Some? && !Leaves(text)
    ensures var m := Minified(text).value;
            NulFree(m) && ParseDocument(m, true) == Parsed(ParseDocument(text, true).value, |m|)
            && Minified(m) == Some(m)
  {
    hide *;
    var d := DocumentRead(text);
    DocumentAllowed(d);
    NoLastLine(text);
    MinifyThenParse(d, [], true);
    LeavesExactly(text);
    var e := StrippedDocument(d);
    WithinLimit(DocValue(d.value), |DocumentText(e)|);
    StrippedIsDocument(d);
    DocumentAllowed(e);
    NoLastLine(DocumentText(e));
    MinifyDocument(e, []);
  }

  // ---------------------------------------------------------------- printed text

  lemma {:induction false} LaidGaps(format: bool, n: nat)
    ensures Left(NewLine(format, n)) == [] && Left(if format then [Space(32)] else []) == []
    ensures Left(if format then [Space(9)] else []) == []
  {
    var g := TabGap(format, n);
    TabsLeft(n);
    if format {
      assert ([Space(10)] + g)[1..] == g;
    }
  }

  lemma {:induction false} TabsLeft(n: nat)
    ensures Left(seq(n, _ => Space(9))) == []
  {
    if n > 0 {
      TabsLeft(n - 1);
      assert seq(n, _ => Space(9))[1..] == seq(n - 1, _ => Space(9));
    }
  }

  /** Without its white space the formatted layout is the unformatted one. */
  lemma {:induction false} StrippedLayout(v: Value, format: bool, level: nat)
    ensures Stripped(Layout(v, format, level)) == Layout(v, false, level)
    decreases v, 1
  {
    hide Left, NewLine, LaidItems, LaidMembers, StrippedItems, StrippedMembers, AllWritten;
    LaidGaps(format, level);
    NothingLeft();
    match v
    case Array(items) => StrippedLaidItems(items, format, level + 1, []);
    case Object(members) =>
      UnformattedLine(level);
      StrippedLaidMembers(members, format, level + 1);
    case _ =>
  }

  lemma NothingLeft()
    ensures Left([]) == []
  {
  }

  lemma UnformattedLine(n: nat)
    ensures NewLine(false, n) == []
  {
  }

  lemma {:induction false} StrippedLaidItems(items: seq<Value>, format: bool, level: nat, before: Gap)
    requires Left(before) == []
    ensures StrippedItems(LaidItems(items, format, level, before)) == LaidItems(items, false, level, [])
    decreases items, 0
  {
    hide Left, Layout, Stripped;
    if items != [] {
      var blank := if format then [Space(32)] else [];
      LaidGaps(format, level);
      NothingLeft();
      StrippedLayout(items[0], format, level);
      StrippedLaidItems(items[1..], format, level, blank);
      var rest := LaidItems(items[1..], format, level, blank);
      assert LaidItems(items, format, level, before)[1..] == rest;
    }
  }

  lemma {:induction false} StrippedLaidMembers(members: seq<Member>, format: bool, level: nat)
    requires level > 0
    ensures StrippedMembers(LaidMembers(members, format, level)) == LaidMembers(members, false, level)
    decreases members, 0
  {
    hide Left, Layout, Stripped, NewLine, AllWritten;
    if members != [] {
      LaidGaps(format, level);
      LaidGaps(format, level - 1);
      NothingLeft();
      UnformattedLine(level);
      UnformattedLine(level - 1);
      StrippedLayout(members[0].value, format, level);
      StrippedLaidMembers(members[1..], format, level);
      assert LaidMembers(members, format, level)[1..] == LaidMembers(members[1..], format, level);
    }
  }

  /** The printed text of v, in either format, minifies to its unformatted print, whatever follows. */
  lemma ShrinksValue(v: Value, format: bool, level: nat, rest: Text)
    requires Printable(v)
    ensures Shrinks(Render(v, format, level), Render(v, false, level), rest)
  {
    hide *;
    LayoutText(v, format, level);
    LayoutText(v, false, level);
    DocAllowed(Layout(v, format, level));
    DocShrinks(Layout(v, format, level), rest);
    StrippedLayout(v, format, level);
  }

  /** Minifying a printed value, in either format, gives byte for byte its unformatted print; so the
      text is always complete enough for the in-place rewrite, and minifying twice changes nothing more. */
  lemma MinifyOfPrint(v: Value, format: bool)
    requires Printable(v)
    ensures Minified(Render(v, format, 0)) == Some(Render(v, false, 0))
  {
    hide *;
    ShrinksValue(v, format, 0, []);
    ShrinksAll(Render(v, format, 0), Render(v, false, 0));
  }

  // ---------------------------------------------------------------- the required end

  lemma ReadNumberFirst(text: Text, n: nat)
    requires NulFree(text) && n < PRINTABLE_LIMIT && At(text, 0, Decimal(n))
    requires |Decimal(n)| < |text| ==> text[|Decimal(n)|] == SPACE
    ensures ParseDocument(text, false) == Parsed(Number(n as real), |Decimal(n)|)
  {
    hide ParseValue, Decimal;
    var s := text + [NUL];
    DocumentParsed(text, false);
    assert s[0] == Decimal(n)[0] && IsDigit(s[0]) by {
      DecimalOfNat(n);
    }
    assert Skip(s, 0) == 0 && Start(s) == 0;
    assert n as real == (n as real).Floor as real;
    ReadBack(Number(n as real), false, 0, s, 0, 0);
    NoLevels(Number(n as real));
  }

  lemma DecimalOfNat(n: nat)
    ensures IsDigit(Decimal(n)[0])
  {
  }

  /** Without the required end two numbers may be joined: "1 2" is read as 1, and minified as 12. */
  lemma EndIsNeeded()
    ensures ParseDocument([49, SPACE, 50], false) == Parsed(Number(1.0), 1)
    ensures Minified([49, SPACE, 50]) == Some([49, 50]) && ParseDocument([49, 50], false) == Parsed(Number(12.0), 2)
  {
    assert Digits(1) == [49] && Digits(12) == [49, 50];
    hide Minified, ParseDocument;
    ReadNumberFirst([49, SPACE, 50], 1);
    ReadNumberFirst([49, 50], 12);
    assert [49] + ([SPACE] + [50]) == [49, SPACE, 50] && [49] + [50] == [49, 50];
    BlankIsDropped([49], [50]);
  }
}
