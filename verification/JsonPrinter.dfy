/** The printer of 3rdparty/cjson/cJSON.c, which walks a tree of linked nodes, over its growable byte buffer, proved
    to leave exactly the rendered text, whatever the buffer's first size and however often it grew. */
module JsonPrinter {
  import opened Bytes
  import opened Json
  import opened JsonString
  import opened JsonTrees

  const INT_MAX := 0x7FFF_FFFF

  /** Additional bytes the first pass over a string counts for c. */
  function EscapeCost(c: Byte): nat {
    if ShortEscape(c).Some? then 1 else if c < 32 then 5 else 0
  }

  lemma EscapeRound(s: Text, i: nat)
    requires i < |s|
    ensures Escape(s[i..]) == EscapeByte(s[i]) + Escape(s[i + 1..])
    ensures |EscapeByte(s[i])| == 1 + EscapeCost(s[i])
  {
    assert s[i..][1..] == s[i + 1..];
  }

  lemma {:induction false} EscapeNothing(s: Text)
    ensures |Escape(s)| >= |s|
    ensures |Escape(s)| == |s| ==> Escape(s) == s
  {
    if s != [] {
      EscapeNothing(s[1..]);
    }
  }

  lemma Associate(a: Text, b: Text, c: Text)
    ensures (a + b) + c == a + (b + c)
  {
  }

  lemma ArrayText(items: seq<Value>, format: bool, level: nat)
    ensures ItemsPrintable(items) ==>
              Render(Array(items), format, level) == [LBRACKET] + RenderItems(items, format, level + 1) + [RBRACKET]
  {
  }

  lemma NothingToRender(items: seq<Value>, members: seq<Member>, format: bool, level: nat)
    ensures RenderItems(items[|items|..], format, level) == []
    ensures RenderMembers(members[|members|..], format, level) == []
  {
  }

  /** What the element loop has still to write at element i. */
  lemma ItemsRound(items: seq<Value>, i: nat, format: bool, level: nat)
    requires i < |items| && ItemsPrintable(items[i..])
    ensures Printable(items[i]) && ItemsPrintable(items[i + 1..])
    ensures RenderItems(items[i..], format, level) ==
            (Render(items[i], format, level) + if i + 1 < |items| then ItemGap(format) else [])
            + RenderItems(items[i + 1..], format, level)
  {
    hide Render;
    assert items[i..][1..] == items[i + 1..];
  }

  /** What is printed for a node of each type. */
  lemma TextOfTree(t: Tree, format: bool, level: nat)
    requires Printable(ToValue(t))
    ensures t.item.INull? ==> Render(ToValue(t), format, level) == NULL_TEXT
    ensures t.item.IFalse? ==> Render(ToValue(t), format, level) == FALSE_TEXT
    ensures t.item.ITrue? ==> Render(ToValue(t), format, level) == TRUE_TEXT
    ensures t.item.INumber? ==> Render(ToValue(t), format, level) == Decimal(t.item.value.Floor)
    ensures t.item.IString? ==> Render(ToValue(t), format, level) == Quoted(t.item.text) && NulFree(t.item.text)
    ensures t.item.IArray? ==> ToValue(t) == Array(ToItems(t.kids)) && ItemsPrintable(ToItems(t.kids))
    ensures t.item.IObject? ==> ToValue(t) == Object(ToMembers(t.kids)) && MembersPrintable(ToMembers(t.kids))
  {
  }

  /** Behind a member: a comma unless it is the last, and the line break. */
  function MemberEnd(format: bool, hasNext: bool): Text {
    (if hasNext then [COMMA] else []) + LineBreak(format)
  }

  lemma ObjectText(members: seq<Member>, format: bool, level: nat)
    requires MembersPrintable(members)
    ensures Render(Object(members), format, level) ==
            ([LBRACE] + LineBreak(format)) + RenderMembers(members, format, level + 1)
            + (Indent(format, level) + [RBRACE])
  {
    hide RenderMembers;
  }

  /** What the member loop has still to write at member i. */
  lemma MembersRound(members: seq<Member>, i: nat, format: bool, level: nat)
    requires i < |members| && MembersPrintable(members[i..])
    ensures NulFree(members[i].key) && Printable(members[i].value) && MembersPrintable(members[i + 1..])
    ensures RenderMembers(members[i..], format, level) ==
            (RenderMember(members[i], format, level) + MemberEnd(format, i + 1 < |members|))
            + RenderMembers(members[i + 1..], format, level)
  {
    hide RenderMember;
    assert members[i..][1..] == members[i + 1..];
  }

  class PrintBuffer {
    var buffer: array<Byte>
    var offset: nat
    var depth: nat
    const noalloc: bool
    const format: bool
    const reallocate: bool
    /** End of the region that the last call of Ensure granted for writing. */
    ghost var granted: nat

    constructor (buffer: array<Byte>, noalloc: bool, format: bool, reallocate: bool)
      requires buffer.Length <= INT_MAX && (buffer.Length > 0 || noalloc || reallocate)
      ensures Valid() && this.buffer == buffer && offset == 0 && depth == 0
      ensures this.noalloc == noalloc && this.format == format && this.reallocate == reallocate
    {
      this.buffer, this.noalloc, this.format, this.reallocate := buffer, noalloc, format, reallocate;
      offset, depth, granted := 0, 0, 0;
    }

    ghost predicate Valid()
      reads this
    {
      buffer.Length <= INT_MAX
      && (offset < buffer.Length || (offset == 0 && buffer.Length == 0 && (noalloc || reallocate)))
    }

    /** How many bytes the buffer may ever hold. */
    function Limit(): nat
      reads this
    {
      if noalloc then buffer.Length else INT_MAX
    }

    /** The bytes written so far. */
    ghost function Written(): Text
      reads this, buffer
      requires Valid()
    {
      buffer[..offset]
    }

    /** Makes room for `needed` bytes at the offset; realloc keeps the whole old content, the manual
        path only the written bytes and one more. */
    method Ensure(needed: nat) returns (ok: bool)
      requires Valid()
      modifies this`buffer, this`granted
      ensures Valid() && (buffer == old(buffer) || fresh(buffer)) && buffer[..offset] == old(buffer[..offset])
      ensures Limit() == old(Limit())
      ensures ok <==> offset + needed + 1 <= Limit()
      ensures ok ==> granted == offset + needed < buffer.Length
    {
      if buffer.Length > 0 && offset >= buffer.Length {
        assert false;
      }
      if needed > INT_MAX {
        return false;
      }
      var total := needed + offset + 1;
      if total <= buffer.Length {
        granted := offset + needed;
        return true;
      }
      if noalloc {
        return false;
      }
      var newSize;
      if total > INT_MAX / 2 {
        if total <= INT_MAX {
          newSize := INT_MAX;
        } else {
          return false;
        }
      } else {
        newSize := total * 2;
      }
      var oldBuffer, newBuffer := buffer, new Byte[newSize];
      var keep := if reallocate then oldBuffer.Length else offset + 1;
      for i := 0 to keep
        invariant forall k :: 0 <= k < i ==> newBuffer[k] == oldBuffer[k]
      {
        newBuffer[i] := oldBuffer[i];
      }
      buffer := newBuffer;
      assert buffer[..offset] == oldBuffer[..offset];
      granted := offset + needed;
      ok := true;
    }

    /** Writes below the granted bound, and nowhere else. */
    method Put(at: nat, b: Byte)
      requires Valid() && at < granted < buffer.Length
      modifies buffer
      ensures buffer[..] == old(buffer[..])[at := b]
    {
      buffer[at] := b;
    }

    /** Copies t to buffer[at..]. */
    method Write(at: nat, t: Text)
      requires Valid() && at + |t| <= granted < buffer.Length
      modifies buffer
      ensures buffer[..at + |t|] == old(buffer[..at]) + t
      ensures forall k :: at + |t| <= k < buffer.Length ==> buffer[k] == old(buffer[k])
    {
      var i := 0;
      while i < |t|
        invariant i <= |t| && buffer[..at + i] == old(buffer[..at]) + t[..i]
        invariant forall k :: at + i <= k < buffer.Length ==> buffer[k] == old(buffer[k])
      {
        Put(at + i, t[i]);
        assert buffer[..at + i + 1] == buffer[..at + i] + [t[i]];
        i := i + 1;
      }
      assert t[..|t|] == t;
    }

    /** Reserves `needed` bytes and writes t at the offset, if asked with a terminator; the offset
        stays. */
    method Place(t: Text, needed: nat, terminate: bool) returns (ok: bool)
      requires Valid() && |t| <= needed && (terminate ==> |t| < needed)
      modifies this`buffer, this`granted, buffer
      ensures Valid() && (buffer == old(buffer) || fresh(buffer)) && Limit() == old(Limit())
      ensures ok <==> offset + needed + 1 <= Limit()
      ensures ok ==> offset + |t| < buffer.Length && buffer[..offset + |t|] == old(buffer[..offset]) + t
      ensures ok && terminate ==> buffer[offset + |t|] == NUL
    {
      ok := Ensure(needed);
      if ok {
        Write(offset, t);
        if terminate {
          ghost var done := buffer[..offset + |t|];
          Put(offset + |t|, NUL);
          assert buffer[..offset + |t|] == done;
        }
      }
    }

    /** As Place, and moves the offset behind t. */
    method Emit(t: Text, needed: nat, terminate: bool) returns (ok: bool)
      requires Valid() && |t| <= needed && (terminate ==> |t| < needed)
      modifies this`buffer, this`granted, this`offset, buffer
      ensures Valid() && (buffer == old(buffer) || fresh(buffer)) && Limit() == old(Limit())
      ensures ok <==> old(offset) + needed + 1 <= Limit()
      ensures ok ==> offset == old(offset) + |t| && Written() == old(Written()) + t
    {
      ok := Place(t, needed, terminate);
      if ok {
        offset := offset + |t|;
      }
    }

    /** Moves the offset to the terminator, which the caller knows to stand behind t. */
    method UpdateOffset(ghost before: Text, ghost t: Text)
      requires Valid() && |before| <= offset <= |before| + |t| < buffer.Length && NulFree(t)
      requires buffer[..|before| + |t|] == before + t && buffer[|before| + |t|] == NUL
      modifies this`offset
      ensures Valid() && offset == |before| + |t|
    {
      forall k | |before| <= k < |before| + |t| ensures buffer[k] != NUL {
        assert buffer[k] == (before + t)[k] == t[k - |before|];
      }
      while buffer[offset] != NUL
        invariant |before| <= offset <= |before| + |t|
        decreases |before| + |t| - offset
      {
        offset := offset + 1;
      }
    }

    /** What a print function leaves behind: t after the bytes written before, and a terminator. */
    twostate predicate Printed(t: Text)
      requires old(Valid())
      reads this, buffer
    {
      Valid() && depth == old(depth)
      && old(offset) <= offset <= old(offset) + |t| < buffer.Length
      && buffer[..old(offset) + |t|] == old(Written()) + t
      && buffer[old(offset) + |t|] == NUL
    }

    method PrintNumber(n: int) returns (ok: bool)
      requires Valid()
      modifies this`buffer, this`granted, this`offset, buffer
      ensures (buffer == old(buffer) || fresh(buffer)) && Limit() == old(Limit())
      ensures ok <==> old(offset) + |Decimal(n)| + 2 <= Limit()
      ensures ok ==> Printed(Decimal(n))
    {
      var number := Decimal(n);
      ok := Place(number, |number| + 1, true);
      if ok {
        offset := offset + |number|;
      }
    }

    /** First pass over a string: how many bytes escaping adds. */
    method CountEscapes(s: Text) returns (escapes: nat)
      ensures |s| + escapes == |Escape(s)|
    {
      hide Escape, EscapeByte;
      escapes := 0;
      var i := 0;
      assert s[0..] == s;
      while i < |s|
        invariant i <= |s| && i + escapes + |Escape(s[i..])| == |Escape(s)|
      {
        EscapeRound(s, i);
        if s[i] == QUOTE || s[i] == BACKSLASH || s[i] == 8 || s[i] == 12
           || s[i] == NEWLINE || s[i] == RETURN || s[i] == TAB {
          escapes := escapes + 1;
        } else if s[i] < 32 {
          escapes := escapes + 5;
        }
        i := i + 1;
      }
      EscapeEmpty(s);
    }

    lemma EscapeEmpty(s: Text)
      ensures Escape(s[|s|..]) == []
    {
    }

    /** Second pass: writes the escaped bytes of s at buffer[at..]. */
    method WriteEscaped(at: nat, s: Text) returns (end: nat)
      requires Valid() && at + |Escape(s)| < granted < buffer.Length
      modifies buffer
      ensures end == at + |Escape(s)| && buffer[..end] == old(buffer[..at]) + Escape(s)
    {
      hide Escape, EscapeByte;
      end := at;
      var i := 0;
      assert s[0..] == s;
      while i < |s|
        invariant i <= |s| && end + |Escape(s[i..])| == at + |Escape(s)| && at <= end
        invariant buffer[..end] + Escape(s[i..]) == old(buffer[..at]) + Escape(s)
      {
        EscapeRound(s, i);
        ghost var done := buffer[..end];
        ghost var next := Escape(s[i + 1..]);
        end := WriteEscapedByte(end, s[i]);
        assert done + (EscapeByte(s[i]) + next) == (done + EscapeByte(s[i])) + next;
        i := i + 1;
      }
      EscapeEmpty(s);
      assert buffer[..end] + [] == buffer[..end];
    }

    method WriteEscapedByte(at: nat, c: Byte) returns (end: nat)
      requires Valid() && at + |EscapeByte(c)| < granted < buffer.Length
      modifies buffer
      ensures end == at + |EscapeByte(c)| && buffer[..end] == old(buffer[..at]) + EscapeByte(c)
    {
      if c > 31 && c != QUOTE && c != BACKSLASH {
        Write(at, [c]);
        end := at + 1;
      } else {
        var letter := ShortEscape(c);
        if letter.Some? {
          Write(at, [BACKSLASH, letter.value]);
          end := at + 2;
        } else {
          // sprintf of "u%04x" also writes a terminator, which the next byte overwrites
          Write(at, UnitEscape(c, LOWER));
          end := at + 6;
          ghost var done := buffer[..end];
          Put(end, NUL);
          assert buffer[..end] == done;
        }
      }
    }

    method PrintStringPtr(input: Option<Text>) returns (ok: bool)
      requires Valid()
      modifies this`buffer, this`granted, buffer
      ensures (buffer == old(buffer) || fresh(buffer)) && Limit() == old(Limit())
      ensures var t := Quoted(if input.Some? then input.value else []);
              (ok <==> old(offset) + |t| + 2 <= Limit()) && (ok ==> Printed(t))
    {
      if input.None? {
        assert Quoted([]) == [QUOTE, QUOTE];
        ok := Place([QUOTE, QUOTE], 3, true);
        return;
      }
      hide Escape;
      var s := input.value;
      var escapes := CountEscapes(s);
      var outputLength := |s| + escapes;
      ok := Ensure(outputLength + 3);
      if ok {
        if escapes == 0 {
          WriteUnescaped(s);
        } else {
          WriteWithEscapes(s);
        }
      }
    }

    method WriteWithEscapes(s: Text)
      requires Valid() && offset + |Escape(s)| + 3 <= granted < buffer.Length
      modifies buffer
      ensures Printed(Quoted(s))
    {
      hide Escape, NulFree;
      ghost var before := Written();
      Write(offset, [QUOTE]);
      var end := WriteEscaped(offset + 1, s);
      WriteClosing(end);
      Associate(before, [QUOTE], Escape(s));
      Associate(before, [QUOTE] + Escape(s), [QUOTE]);
    }

    /** No byte needs escaping: the string is copied as it is. */
    method WriteUnescaped(s: Text)
      requires Valid() && |Escape(s)| == |s| && offset + |s| + 3 <= granted < buffer.Length
      modifies buffer
      ensures Printed(Quoted(s))
    {
      EscapeNothing(s);
      hide Escape, NulFree;
      ghost var before := Written();
      Write(offset, [QUOTE]);
      Write(offset + 1, s);
      WriteClosing(offset + 1 + |s|);
      Associate(before, [QUOTE], s);
      Associate(before, [QUOTE] + s, [QUOTE]);
    }

    /** The closing quote and the terminator. */
    method WriteClosing(at: nat)
      requires Valid() && at + 2 <= granted < buffer.Length
      modifies buffer
      ensures buffer[..at + 1] == old(buffer[..at]) + [QUOTE] && buffer[at + 1] == NUL
    {
      Put(at, QUOTE);
      assert buffer[..at + 1] == buffer[..at] + [QUOTE];
      ghost var done := buffer[..at + 1];
      Put(at + 1, NUL);
      assert buffer[..at + 1] == done;
    }

    method PrintKeyword(keyword: Text, needed: nat) returns (ok: bool)
      requires Valid() && needed == |keyword| + 1
      modifies this`buffer, this`granted, buffer
      ensures (buffer == old(buffer) || fresh(buffer)) && Limit() == old(Limit())
      ensures (ok <==> old(offset) + |keyword| + 2 <= Limit()) && (ok ==> Printed(keyword))
    {
      ok := Place(keyword, needed, true);
    }

    method PrintValue(item: Node, ghost t: Tree, ghost R: set<Node>) returns (ok: bool)
      requires Valid() && Matches(t, R) && t.node == item && Printable(ToValue(t))
      modifies this`buffer, this`granted, this`offset, this`depth, buffer
      ensures (buffer == old(buffer) || fresh(buffer)) && Limit() == old(Limit())
      ensures var text := Render(ToValue(t), format, old(depth));
              (ok <==> old(offset) + |text| + 2 <= Limit()) && (ok ==> Printed(text))
      decreases t, 4
    {
      TextOfTree(t, format, depth);
      hide Matches, Render, ToValue, Quoted, Decimal, Printed;
      FirstKid(t, R);
      match item.item
      case INull => ok := PrintKeyword(NULL_TEXT, 5);
      case IFalse => ok := PrintKeyword(FALSE_TEXT, 6);
      case ITrue => ok := PrintKeyword(TRUE_TEXT, 5);
      case INumber(r) => ok := PrintNumber(r.Floor);
      case IString(s) => ok := PrintStringPtr(Some(s));
      case IArray => ok := PrintArray(item, t, R);
      case IObject => ok := PrintObject(item, t, R);
    }

    /** print_value followed by update_offset. */
    method PrintChild(item: Node, ghost t: Tree, ghost R: set<Node>) returns (ok: bool)
      requires Valid() && Matches(t, R) && t.node == item && Printable(ToValue(t))
      modifies this`buffer, this`granted, this`offset, this`depth, buffer
      ensures (buffer == old(buffer) || fresh(buffer)) && Limit() == old(Limit())
      ensures var text := Render(ToValue(t), format, old(depth));
              (ok <==> old(offset) + |text| + 2 <= Limit())
              && (ok ==> Valid() && depth == old(depth) && Written() == old(Written()) + text)
      decreases t, 5
    {
      hide Render, Matches;
      RenderNulFree(ToValue(t), format, depth);
      ghost var before, text := Written(), Render(ToValue(t), format, depth);
      ok := PrintValue(item, t, R);
      if ok {
        UpdateOffset(before, text);
      }
    }

    /** One round of the element loop: the element and, unless it is the last, the gap behind it. */
    method PrintItem(currentElement: Node, ghost t: Tree, ghost R: set<Node>, ghost k: nat)
      returns (ok: bool, next: Node?)
      requires Valid() && Matches(t, R) && k < |t.kids| && currentElement == t.kids[k].node
      requires Printable(ToValue(t.kids[k]))
      modifies this`buffer, this`granted, this`offset, this`depth, buffer
      ensures (buffer == old(buffer) || fresh(buffer)) && Limit() == old(Limit())
      ensures var text := Render(ToValue(t.kids[k]), format, old(depth))
                          + if k + 1 < |t.kids| then ItemGap(format) else [];
              (ok <==> old(offset) + |text| + 2 <= Limit())
              && (ok ==> Valid() && depth == old(depth) && Written() == old(Written()) + text)
      ensures Matches(t, R) && next == KidNode(t, k + 1)
      decreases t, 0
    {
      hide Render, Matches, ToValue, Printable;
      NextKid(t, k, R);
      ok := PrintChild(currentElement, t.kids[k], R);
      next := currentElement.next;
      if ok && next != null {
        ok := Emit(ItemGap(format), |ItemGap(format)| + 1, true);
      }
    }

    /** The element loop. */
    method PrintItems(item: Node, ghost t: Tree, ghost R: set<Node>) returns (ok: bool)
      requires Valid() && Matches(t, R) && t.node == item && ItemsPrintable(ToItems(t.kids))
      modifies this`buffer, this`granted, this`offset, this`depth, buffer
      ensures (buffer == old(buffer) || fresh(buffer)) && Limit() == old(Limit())
      ensures var text := RenderItems(ToItems(t.kids), format, old(depth));
              (ok <==> t.kids == [] || old(offset) + |text| + 2 <= Limit())
              && (ok ==> Valid() && depth == old(depth) && Written() == old(Written()) + text)
      decreases t, 1
    {
      hide Matches, ToValue, Printable, Render, RenderItems, ItemGap, ItemsPrintable, ToItems;
      ghost var items := ToItems(t.kids);
      ghost var total := Written() + RenderItems(items, format, depth);
      var currentElement := item.child;
      ghost var k := 0;
      FirstKid(t, R);
      assert items[0..] == items;
      while currentElement != null
        invariant Matches(t, R) && k <= |t.kids| && currentElement == KidNode(t, k) && ItemsPrintable(items[k..])
        invariant Valid() && depth == old(depth) && Limit() == old(Limit())
        invariant buffer == old(buffer) || fresh(buffer)
        invariant Written() + RenderItems(items[k..], format, depth) == total
        invariant k > 0 ==> offset + 2 <= Limit()
        decreases |t.kids| - k
      {
        ItemsRound(items, k, format, depth);
        ok, currentElement := PrintItem(currentElement, t, R, k);
        if !ok {
          return;
        }
        k := k + 1;
      }
      NothingToRender(items, [], format, depth);
      assert Written() + [] == Written();
      ok := true;
    }

    /** An opening text; what follows stands one level deeper. */
    method Open(opening: Text, needed: nat) returns (ok: bool)
      requires Valid() && |opening| <= needed
      modifies this`buffer, this`granted, this`offset, this`depth, buffer
      ensures (buffer == old(buffer) || fresh(buffer)) && Limit() == old(Limit())
      ensures ok <==> old(offset) + needed + 1 <= Limit()
      ensures ok ==> Valid() && depth == old(depth) + 1 && Written() == old(Written()) + opening
    {
      ok := Emit(opening, needed, false);
      if ok {
        depth := depth + 1;
      }
    }

    /** A closing text with a terminator, and back to the level outside. */
    method Close(closing: Text, ghost before: Text, ghost t: Text) returns (ok: bool)
      requires Valid() && depth > 0 && Written() + closing == before + t && |before| <= offset
      modifies this`buffer, this`granted, this`depth, buffer
      ensures (buffer == old(buffer) || fresh(buffer)) && Limit() == old(Limit())
      ensures ok <==> |before| + |t| + 2 <= Limit()
      ensures ok ==> Valid() && depth == old(depth) - 1 && offset <= |before| + |t| < buffer.Length
                     && buffer[..|before| + |t|] == before + t && buffer[|before| + |t|] == NUL
    {
      assert offset + |closing| == |before| + |t|;
      ok := Place(closing, |closing| + 1, true);
      depth := depth - 1;
    }

    /** The opening bracket and the elements. */
    method PrintArrayBody(item: Node, ghost t: Tree, ghost R: set<Node>) returns (ok: bool)
      requires Valid() && Matches(t, R) && t.node == item && ItemsPrintable(ToItems(t.kids))
      modifies this`buffer, this`granted, this`offset, this`depth, buffer
      ensures (buffer == old(buffer) || fresh(buffer)) && Limit() == old(Limit())
      ensures var text := [LBRACKET] + RenderItems(ToItems(t.kids), format, old(depth) + 1);
              (!ok ==> old(offset) + |text| + 3 > Limit())
              && (ok ==> Valid() && depth == old(depth) + 1 && Written() == old(Written()) + text)
      decreases t, 2
    {
      hide Matches, RenderItems, ItemsPrintable, ToItems;
      ok := Open([LBRACKET], 1);
      if ok {
        ok := PrintItems(item, t, R);
        Associate(old(Written()), [LBRACKET], RenderItems(ToItems(t.kids), format, old(depth) + 1));
      }
    }

    method PrintArray(item: Node, ghost t: Tree, ghost R: set<Node>) returns (ok: bool)
      requires Valid() && Matches(t, R) && t.node == item && ItemsPrintable(ToItems(t.kids))
      modifies this`buffer, this`granted, this`offset, this`depth, buffer
      ensures (buffer == old(buffer) || fresh(buffer)) && Limit() == old(Limit())
      ensures var text := Render(Array(ToItems(t.kids)), format, old(depth));
              (ok <==> old(offset) + |text| + 2 <= Limit()) && (ok ==> Printed(text))
      decreases t, 3
    {
      hide Matches, Render, RenderItems, ItemsPrintable, ToItems;
      ArrayText(ToItems(t.kids), format, depth);
      ghost var before, body := Written(), [LBRACKET] + RenderItems(ToItems(t.kids), format, depth + 1);
      ok := PrintArrayBody(item, t, R);
      if !ok {
        return;
      }
      Associate(before, body, [RBRACKET]);
      ok := Close([RBRACKET], before, body + [RBRACKET]);
    }

    /** The indentation of a line of an object. */
    method PrintIndent() returns (ok: bool)
      requires Valid()
      modifies this`buffer, this`granted, this`offset, buffer
      ensures (buffer == old(buffer) || fresh(buffer)) && Limit() == old(Limit())
      ensures (!ok ==> old(offset) + |Indent(format, depth)| + 1 > Limit())
              && (ok ==> Valid() && Written() == old(Written()) + Indent(format, depth))
    {
      hide Tabs;
      ok := true;
      if format {
        ok := Emit(Tabs(depth), depth, false);
      } else {
        assert Written() + [] == Written();
      }
    }

    /** print_string_ptr followed by update_offset. */
    method PrintQuoted(key: Option<Text>) returns (ok: bool)
      requires Valid() && NulFree(KeyText(key))
      modifies this`buffer, this`granted, this`offset, buffer
      ensures (buffer == old(buffer) || fresh(buffer)) && Limit() == old(Limit())
      ensures (!ok ==> old(offset) + |Quoted(KeyText(key))| + 2 > Limit())
              && (ok ==> Valid() && Written() == old(Written()) + Quoted(KeyText(key)))
    {
      hide Quoted;
      ghost var before, text := Written(), Quoted(KeyText(key));
      ok := PrintStringPtr(key);
      if ok {
        UpdateOffset(before, text);
      }
    }

    /** The first part of a line of an object: its indentation, the key and the gap behind it. */
    method PrintKey(key: Option<Text>) returns (ok: bool)
      requires Valid() && NulFree(KeyText(key))
      modifies this`buffer, this`granted, this`offset, buffer
      ensures (buffer == old(buffer) || fresh(buffer)) && Limit() == old(Limit())
      ensures var t := Indent(format, depth) + Quoted(KeyText(key)) + KeyGap(format);
              (!ok ==> old(offset) + |t| + 2 > Limit())
              && (ok ==> Valid() && Written() == old(Written()) + t)
    {
      hide Quoted, Indent;
      ok := PrintIndent();
      if !ok {
        return;
      }
      ok := PrintQuoted(key);
      if !ok {
        return;
      }
      ok := Emit(KeyGap(format), |KeyGap(format)|, false);
      Associate(old(Written()), Indent(format, depth), Quoted(KeyText(key)));
      Associate(old(Written()), Indent(format, depth) + Quoted(KeyText(key)), KeyGap(format));
    }

    /** A line of an object. */
    method PrintLine(item: Node, hasNext: bool, ghost t: Tree, ghost R: set<Node>) returns (ok: bool)
      requires Valid() && Matches(t, R) && t.node == item
      requires NulFree(KeyText(t.key)) && Printable(ToValue(t))
      modifies this`buffer, this`granted, this`offset, this`depth, buffer
      ensures (buffer == old(buffer) || fresh(buffer)) && Limit() == old(Limit())
      ensures var m := Member(KeyText(t.key), ToValue(t));
              var text := RenderMember(m, format, old(depth)) + MemberEnd(format, hasNext);
              (ok <==> old(offset) + |text| + 2 <= Limit())
              && (ok ==> Valid() && depth == old(depth) && Written() == old(Written()) + text)
      decreases t, 6
    {
      hide Matches, ToValue, Printable, Render, Quoted, Indent, KeyGap, MemberEnd;
      FirstKid(t, R);
      ghost var before := Written();
      ghost var key := Indent(format, depth) + Quoted(KeyText(t.key)) + KeyGap(format);
      ghost var line := Render(ToValue(t), format, depth);
      ok := PrintKey(item.key);
      if !ok {
        return;
      }
      ok := PrintChild(item, t, R);
      if !ok {
        return;
      }
      ok := Emit(MemberEnd(format, hasNext), |MemberEnd(format, hasNext)| + 1, true);
      Associate(before, key, line);
      Associate(before, key + line, MemberEnd(format, hasNext));
    }

    /** One round of the member loop. */
    method PrintMember(currentItem: Node, ghost t: Tree, ghost R: set<Node>, ghost k: nat)
      returns (ok: bool, next: Node?)
      requires Valid() && Matches(t, R) && k < |t.kids| && currentItem == t.kids[k].node
      requires NulFree(KeyText(t.kids[k].key)) && Printable(ToValue(t.kids[k]))
      modifies this`buffer, this`granted, this`offset, this`depth, buffer
      ensures (buffer == old(buffer) || fresh(buffer)) && Limit() == old(Limit())
      ensures var m := Member(KeyText(t.kids[k].key), ToValue(t.kids[k]));
              var text := RenderMember(m, format, old(depth)) + MemberEnd(format, k + 1 < |t.kids|);
              (ok <==> old(offset) + |text| + 2 <= Limit())
              && (ok ==> Valid() && depth == old(depth) && Written() == old(Written()) + text)
      ensures Matches(t, R) && next == KidNode(t, k + 1)
      decreases t, 0
    {
      hide Matches, ToValue, Printable, RenderMember, MemberEnd;
      NextKid(t, k, R);
      ok := PrintLine(currentItem, currentItem.next != null, t.kids[k], R);
      next := currentItem.next;
    }

    /** The member loop. */
    method PrintMembers(item: Node, ghost t: Tree, ghost R: set<Node>) returns (ok: bool)
      requires Valid() && Matches(t, R) && t.node == item && t.item == IObject
      requires MembersPrintable(ToMembers(t.kids))
      modifies this`buffer, this`granted, this`offset, this`depth, buffer
      ensures (buffer == old(buffer) || fresh(buffer)) && Limit() == old(Limit())
      ensures var text := RenderMembers(ToMembers(t.kids), format, old(depth));
              (ok <==> t.kids == [] || old(offset) + |text| + 2 <= Limit())
              && (ok ==> Valid() && depth == old(depth) && Written() == old(Written()) + text)
      decreases t, 1
    {
      hide Matches, ToValue, Printable, RenderMember, RenderMembers, MemberEnd, MembersPrintable, ToMembers;
      ghost var members := ToMembers(t.kids);
      ghost var total := Written() + RenderMembers(members, format, depth);
      var currentItem := item.child;
      ghost var k := 0;
      FirstKid(t, R);
      assert members[0..] == members;
      while currentItem != null
        invariant Matches(t, R) && k <= |t.kids| && currentItem == KidNode(t, k) && MembersPrintable(members[k..])
        invariant Valid() && depth == old(depth) && Limit() == old(Limit())
        invariant buffer == old(buffer) || fresh(buffer)
        invariant Written() + RenderMembers(members[k..], format, depth) == total
        invariant k > 0 ==> offset + 2 <= Limit()
        decreases |t.kids| - k
      {
        MembersRound(members, k, format, depth);
        ok, currentItem := PrintMember(currentItem, t, R, k);
        if !ok {
          return;
        }
        k := k + 1;
      }
      NothingToRender([], members, format, depth);
      assert Written() + [] == Written();
      ok := true;
    }

    /** The opening brace and the members. */
    method PrintObjectBody(item: Node, ghost t: Tree, ghost R: set<Node>) returns (ok: bool)
      requires Valid() && Matches(t, R) && t.node == item && t.item == IObject
      requires MembersPrintable(ToMembers(t.kids))
      modifies this`buffer, this`granted, this`offset, this`depth, buffer
      ensures (buffer == old(buffer) || fresh(buffer)) && Limit() == old(Limit())
      ensures var text := ([LBRACE] + LineBreak(format)) + RenderMembers(ToMembers(t.kids), format, old(depth) + 1);
              (!ok ==> old(offset) + |text| + 3 > Limit())
              && (ok ==> Valid() && depth == old(depth) + 1 && Written() == old(Written()) + text)
      decreases t, 2
    {
      hide Matches, RenderMembers, MembersPrintable, LineBreak, ToMembers;
      var opening := [LBRACE] + LineBreak(format);
      ok := Open(opening, |opening| + 1);
      if ok {
        ok := PrintMembers(item, t, R);
        Associate(old(Written()), opening, RenderMembers(ToMembers(t.kids), format, old(depth) + 1));
      }
    }

    method PrintObject(item: Node, ghost t: Tree, ghost R: set<Node>) returns (ok: bool)
      requires Valid() && Matches(t, R) && t.node == item && t.item == IObject
      requires MembersPrintable(ToMembers(t.kids))
      modifies this`buffer, this`granted, this`offset, this`depth, buffer
      ensures (buffer == old(buffer) || fresh(buffer)) && Limit() == old(Limit())
      ensures var text := Render(Object(ToMembers(t.kids)), format, old(depth));
              (ok <==> old(offset) + |text| + 2 <= Limit()) && (ok ==> Printed(text))
      decreases t, 3
    {
      hide Matches, Render, RenderMembers, MembersPrintable, LineBreak, Indent, ToMembers;
      ObjectText(ToMembers(t.kids), format, depth);
      ghost var before := Written();
      ghost var body := ([LBRACE] + LineBreak(format)) + RenderMembers(ToMembers(t.kids), format, depth + 1);
      ok := PrintObjectBody(item, t, R);
      if !ok {
        return;
      }
      var closing := Indent(format, depth - 1) + [RBRACE];
      Associate(before, body, closing);
      ok := Close(closing, before, body + closing);
    }
  }

  /** cJSON_PrintBuffered, and with noalloc cJSON_PrintPreallocated: prints the tree at `item` into a buffer that
      first holds `capacity` bytes.  Printing succeeds exactly when the text and two more bytes fit, and then the
      buffer holds the text as a C string. */
  method Print(item: Node, capacity: nat, noalloc: bool, format: bool, reallocate: bool,
               ghost t: Tree, ghost R: set<Node>)
    returns (ok: bool, buffer: array<Byte>)
    requires Matches(t, R) && t.node == item && Printable(ToValue(t))
    requires capacity <= INT_MAX && (capacity > 0 || noalloc || reallocate)
    ensures var text := Render(ToValue(t), format, 0);
            (ok <==> |text| + 2 <= if noalloc then capacity else INT_MAX)
            && (ok ==> |text| < buffer.Length && buffer[..|text|] == text && buffer[|text|] == NUL)
  {
    hide Render, Matches;
    var first := new Byte[capacity];
    var p := new PrintBuffer(first, noalloc, format, reallocate);
    ok := p.PrintValue(item, t, R);
    buffer := p.buffer;
    assert ok ==> [] + Render(ToValue(t), format, 0) == Render(ToValue(t), format, 0);
  }

  const DEFAULT_BUFFER_SIZE := 256

  /** cJSON_Print and cJSON_PrintUnformatted: the text as a C string in memory of exactly its size. */
  method PrintAllocated(item: Node, format: bool, reallocate: bool, ghost t: Tree, ghost R: set<Node>)
    returns (ok: bool, printed: array<Byte>)
    requires Matches(t, R) && t.node == item && Printable(ToValue(t))
    ensures ok <==> |Render(ToValue(t), format, 0)| + 2 <= INT_MAX
    ensures ok ==> printed[..] == Render(ToValue(t), format, 0) + [NUL]
  {
    hide Render, Matches;
    var first := new Byte[DEFAULT_BUFFER_SIZE];
    var p := new PrintBuffer(first, false, format, reallocate);
    ghost var text := Render(ToValue(t), format, 0);
    RenderNulFree(ToValue(t), format, 0);
    printed := first;
    ok := p.PrintValue(item, t, R);
    if ok {
      assert [] + text == text;
      p.UpdateOffset([], text);
      assert p.buffer[..p.offset] == text;
      printed := CopyOut(p.buffer, p.offset, text);
    }
  }

  /** The copy of the text and its terminator into memory of its own. */
  method CopyOut(buffer: array<Byte>, length: nat, ghost text: Text) returns (printed: array<Byte>)
    requires length < buffer.Length && buffer[..length] == text && buffer[length] == NUL
    ensures fresh(printed) && printed[..] == text + [NUL]
  {
    printed := new Byte[length + 1];
    for i := 0 to length + 1
      invariant forall k :: 0 <= k < i ==> printed[k] == buffer[k]
      modifies printed
    {
      printed[i] := buffer[i];
    }
    assert printed[..] == printed[..length] + [printed[length]];
  }
}
