/** The parser of 3rdparty/cjson/cJSON.c over its mutable offset and depth, proved to compute JsonGrammar and to
    build the tree of linked nodes that stands for the value. */
module JsonParser {
  import opened Bytes
  import opened Decimals
  import opened Json
  import opened JsonString
  import opened JsonNumber
  import opened JsonTrees
  import Grammar = JsonGrammar

  /** r with xs put in front of what was parsed. */
  function Extend<T>(xs: seq<T>, r: Grammar.Parsed<seq<T>>): Grammar.Parsed<seq<T>> {
    match r
    case Rejected => Grammar.Rejected
    case Parsed(ys, e) => Grammar.Parsed(xs + ys, e)
  }

  /** Value of the first i digits of t, as far as they are digits. */
  function HexPrefix(t: Text, i: nat): nat
    requires i <= |t| && forall k :: 0 <= k < i ==> HexValue(t[k]).Some?
  {
    if i == 0 then 0 else HexPrefix(t, i - 1) * 16 + HexValue(t[i - 1]).value
  }

  lemma HexPrefixIsValue(t: Text)
    requires |t| >= 4
    ensures (forall k :: 0 <= k < 4 ==> HexValue(t[k]).Some?) ==> ParseHex4(t) == HexPrefix(t, 4)
    ensures forall k :: 0 <= k < 4 && HexValue(t[k]).None? ==> ParseHex4(t) == 0
  {
    hide HexValue;
    if forall k :: 0 <= k < 4 ==> HexValue(t[k]).Some? {
      assert HexPrefix(t, 1) == HexValue(t[0]).value;
      assert HexPrefix(t, 2) == HexPrefix(t, 1) * 16 + HexValue(t[1]).value;
      assert HexPrefix(t, 3) == HexPrefix(t, 2) * 16 + HexValue(t[2]).value;
    }
  }

  method ParseHex4Digits(t: Text) returns (h: nat)
    requires |t| >= 4
    ensures h == ParseHex4(t)
  {
    hide ParseHex4;
    HexPrefixIsValue(t);
    h := 0;
    var i := 0;
    while i < 4
      invariant 0 <= i <= 4
      invariant forall k :: 0 <= k < i ==> HexValue(t[k]).Some?
      invariant h == HexPrefix(t, i) * (if i < 4 then 16 else 1)
    {
      if ZERO <= t[i] <= NINE {
        h := h + (t[i] - ZERO);
      } else if 65 <= t[i] <= 70 {
        h := h + 10 + t[i] - 65;
      } else if 97 <= t[i] <= 102 {
        h := h + 10 + t[i] - 97;
      } else {
        return 0;
      }
      if i < 3 {
        h := h * 16;
      }
      i := i + 1;
    }
  }

  /** cp shifted right by six bits, n times. */
  function Shifted(cp: CodePoint, n: nat): nat
    requires n <= 3
  {
    if n == 0 then cp else if n == 1 then cp / 64 else if n == 2 then cp / 4096 else cp / 262144
  }

  lemma ContinuationByte(cp: CodePoint, j: nat)
    requires 1 <= j < |Utf8(cp)|
    ensures Utf8(cp)[j] == 0x80 + Shifted(cp, |Utf8(cp)| - 1 - j) % 64
    ensures Shifted(cp, |Utf8(cp)| - 1 - j) / 64 == Shifted(cp, |Utf8(cp)| - j)
  {
  }

  lemma FirstUtf8Byte(cp: CodePoint)
    ensures var n := |Utf8(cp)|;
            Utf8(cp)[0] ==
            Shifted(cp, n - 1) + if n == 1 then 0 else if n == 2 then 0xC0 else if n == 3 then 0xE0 else 0xF0
  {
  }

  /** Writes the UTF-8 bytes of codepoint at output[at..], last byte first. */
  method EncodeUtf8(codepoint: CodePoint, output: array<Byte>, at: nat) returns (length: nat)
    requires at + |Utf8(codepoint)| <= output.Length
    modifies output
    ensures length == |Utf8(codepoint)|
    ensures output[..at + length] == old(output[..at]) + Utf8(codepoint)
  {
    hide Utf8;
    var mark := 0;
    length := |Utf8(codepoint)|;
    Utf8Length(codepoint);
    if codepoint < 0x80 {
      length := 1;
    } else if codepoint < 0x800 {
      length, mark := 2, 0xC0;
    } else if codepoint < 0x10000 {
      length, mark := 3, 0xE0;
    } else {
      length, mark := 4, 0xF0;
    }
    var position := length - 1;
    var rest: nat := codepoint;
    while position > 0
      invariant 0 <= position < length
      invariant rest == Shifted(codepoint, length - 1 - position)
      invariant forall j :: position < j < length ==> output[at + j] == Utf8(codepoint)[j]
      invariant output[..at] == old(output[..at])
    {
      ContinuationByte(codepoint, position);
      output[at + position] := 0x80 + rest % 64;
      rest := rest / 64;
      position := position - 1;
    }
    FirstUtf8Byte(codepoint);
    output[at] := mark + rest;
    assert output[..at + length] == output[..at] + output[at..at + length];
    assert output[at..at + length] == Utf8(codepoint);
  }

  lemma Utf8Length(cp: CodePoint)
    ensures |Utf8(cp)| == if cp < 0x80 then 1 else if cp < 0x800 then 2 else if cp < 0x10000 then 3 else 4
  {
  }

  /** One round of the decoding loop at offset p of s, for a literal that ends at `end`. */
  lemma StepAt(s: Text, p: nat, end: nat)
    requires p < end < |s| && s[end] == QUOTE
    ensures var r, n := DecodeStep(s[p..end]), if p + 1 < end then 2 else 1;
            if s[p] != BACKSLASH then r == Some(Step([s[p]], 1))
            else if s[p + 1] == 117 then
              match Utf16Literal(s[p..end])
              case None => r == None
              case Some((cp, len)) => r == Some(Step(Utf8(cp), len))
            else
              match LetterValue(s[p + 1])
              case None => r == None
              case Some(b) => r == Some(Step([b], n))
    ensures DecodeStep(s[p..end]).Some? ==>
              var n := DecodeStep(s[p..end]).value.read;
              1 <= n <= end - p && s[p..end][n..] == s[p + n..end]
  {
    hide Utf16Literal, Utf8, LetterValue;
    var t := s[p..end];
    assert t[0] == s[p] && (p + 1 < end ==> t[1] == s[p + 1]);
  }

  /** One round of the decoding loop after `done` was written. */
  lemma DecodeRound(done: Text, t: Text)
    requires t != []
    ensures DecodeStep(t).None? ==> Prepend(done, Decode(t)).None?
    ensures DecodeStep(t).Some? ==>
              var Step(out, n) := DecodeStep(t).value;
              Prepend(done, Decode(t)) == Prepend(done + out, Decode(t[n..]))
              && |out| + Units(t[n..]) <= Units(t)
  {
    hide DecodeStep, Units;
    if DecodeStep(t).Some? {
      var Step(out, n) := DecodeStep(t).value;
      StepFitsEstimate(t);
      var r := Decode(t[n..]);
      if r.Some? {
        assert done + (out + r.value) == (done + out) + r.value;
      }
    }
  }

  lemma DecodeStart(t: Text)
    ensures Prepend([], Decode(t)) == Decode(t) && Decode([]) == Some([])
    ensures Prepend(t, Decode([])) == Some(t)
  {
    hide DecodeStep;
    assert t + [] == t;
    if Decode(t).Some? {
      assert [] + Decode(t).value == Decode(t).value;
    }
  }

  lemma ScanRound(s: Text, j: nat)
    requires j < |s| && s[j] != QUOTE
    ensures s[j] != BACKSLASH ==> LiteralEnd(s, j) == LiteralEnd(s, j + 1)
    ensures s[j] == BACKSLASH ==> LiteralEnd(s, j) == if j + 1 == |s| then |s| else LiteralEnd(s, j + 2)
    ensures var e := LiteralEnd(s, j);
            e < |s| ==>
              (s[j] != BACKSLASH ==> e >= j + 1 && Units(s[j..e]) == 1 + Units(s[j + 1..e])) &&
              (s[j] == BACKSLASH ==> e >= j + 2 && Units(s[j..e]) == 1 + Units(s[j + 2..e]))
  {
    var e := LiteralEnd(s, j);
    if e < |s| {
      assert s[j..e][1..] == s[j + 1..e];
      if s[j] == BACKSLASH {
        assert s[j..e][2..] == s[j + 2..e];
      }
    }
  }

  lemma ScanEnd(s: Text, j: nat)
    ensures j <= |s| && (j == |s| || s[j] == QUOTE) ==> LiteralEnd(s, j) == j && Units(s[j..j]) == 0
  {
  }

  lemma KeywordAt(s: Text, i: nat, keyword: Text)
    requires Grammar.Terminated(s) && i < |s|
    requires keyword != [] && keyword[|keyword| - 1] != NUL
    ensures Bytes.At(s, i, keyword) <==> i + |keyword| <= |s| && s[i..i + |keyword|] == keyword
    ensures Bytes.At(s, i, keyword) ==> i + |keyword| < |s|
  {
    if At(s, i, keyword) {
      AtSlice(s, i, keyword);
      Grammar.AtEndsInside(s, i, keyword);
    }
    if i + |keyword| <= |s| && s[i..i + |keyword|] == keyword {
      forall k | 0 <= k < |keyword| ensures s[i + k] == keyword[k] {
        assert s[i..i + |keyword|][k] == keyword[k];
      }
    }
  }

  lemma NumberBytesStop(s: Text, i: nat, n: nat, k: nat)
    requires i <= |s| && k <= |NumberBytes(s, i, n)|
    requires k == n || i + k == |s| || !IsNumberByte(s[i + k])
    ensures k == |NumberBytes(s, i, n)|
  {
    hide NumberBytes;
    var t := NumberBytes(s, i, n);
    if k < |t| {
      AtByte(s, i, t, k);
    }
  }

  lemma NotLast(s: Text, i: nat)
    ensures Grammar.Terminated(s) && i < |s| && s[i] != NUL ==> i < |s| - 1
  {
  }

  lemma ExtendNothing<T>(r: Grammar.Parsed<seq<T>>)
    ensures Extend([], r) == r
  {
    if r.Parsed? {
      assert [] + r.value == r.value;
    }
  }

  /** Skipping white space behind the opening bracket first does not change what is parsed. */
  lemma ItemsStart(s: Text, i: nat, depth: nat)
    requires Grammar.Terminated(s) && i < |s|
    ensures Grammar.ParseItems(s, Grammar.Skip(s, i), depth) == Grammar.ParseItems(s, i, depth)
  {
    hide Grammar.Skip, Grammar.ParseValue;
    SkipTwice(s, i);
  }

  lemma ExtendTwice<T>(xs: seq<T>, ys: seq<T>, r: Grammar.Parsed<seq<T>>)
    ensures Extend(xs, Extend(ys, r)) == Extend(xs + ys, r)
  {
    if r.Parsed? {
      assert xs + (ys + r.value) == (xs + ys) + r.value;
    }
  }

  /** What the element loop has parsed when it goes on behind the element v. */
  function AfterItem(s: Text, depth: nat, items: seq<Value>, v: Grammar.Parsed<Value>): Grammar.Parsed<seq<Value>>
    requires Grammar.Terminated(s) && (v.Parsed? ==> v.end < |s|)
  {
    match v
    case Rejected => Grammar.Rejected
    case Parsed(x, e) =>
      var k := Grammar.Skip(s, e);
      if s[k] == RBRACKET then Grammar.Parsed(items + [x], k + 1)
      else if s[k] == COMMA then Extend(items + [x], Grammar.ParseItems(s, k + 1, depth))
      else Grammar.Rejected
  }

  lemma FirstItem(s: Text, i: nat, depth: nat)
    requires Grammar.Terminated(s) && i < |s|
    ensures Grammar.ParseItems(s, i, depth) == AfterItem(s, depth, [], Grammar.ParseValue(s, Grammar.Skip(s, i), depth))
  {
    hide Grammar.Skip, Grammar.ParseValue;
    var v := Grammar.ParseValue(s, Grammar.Skip(s, i), depth);
    assert v.Parsed? ==> [] + [v.value] == [v.value];
  }

  /** One round of the element loop after `items` were parsed. */
  lemma ItemsRound(s: Text, i: nat, depth: nat, items: seq<Value>)
    requires Grammar.Terminated(s) && i < |s|
    ensures Extend(items, Grammar.ParseItems(s, i, depth))
            == AfterItem(s, depth, items, Grammar.ParseValue(s, Grammar.Skip(s, i), depth))
  {
    hide Grammar.Skip, Grammar.ParseValue, Grammar.ParseItems;
    FirstItem(s, i, depth);
    var v := Grammar.ParseValue(s, Grammar.Skip(s, i), depth);
    if v.Parsed? {
      var k := Grammar.Skip(s, v.end);
      assert items + ([] + [v.value]) == items + [v.value];
      if s[k] == COMMA {
        ExtendTwice(items, [] + [v.value], Grammar.ParseItems(s, k + 1, depth));
      }
    }
  }

  lemma {:induction false} SkipTwice(s: Text, i: nat)
    requires i < |s|
    ensures Grammar.Skip(s, Grammar.Skip(s, i)) == Grammar.Skip(s, i)
    decreases |s| - i
  {
    if i < |s| - 1 && s[i] <= SPACE {
      SkipTwice(s, i + 1);
    }
  }

  lemma MembersStart(s: Text, i: nat, depth: nat)
    requires Grammar.Terminated(s) && i < |s|
    ensures Grammar.ParseMembers(s, Grammar.Skip(s, i), depth) == Grammar.ParseMembers(s, i, depth)
  {
    hide Grammar.Skip, Grammar.ParseValue, Grammar.ParseString;
    SkipTwice(s, i);
  }

  /** What the member loop has parsed when it goes on behind the member v. */
  function AfterMember(s: Text, depth: nat, members: seq<Member>, v: Grammar.Parsed<Member>)
    : Grammar.Parsed<seq<Member>>
    requires Grammar.Terminated(s) && (v.Parsed? ==> v.end < |s|)
  {
    match v
    case Rejected => Grammar.Rejected
    case Parsed(x, e) =>
      var k := Grammar.Skip(s, e);
      if s[k] == RBRACE then Grammar.Parsed(members + [x], k + 1)
      else if s[k] == COMMA then Extend(members + [x], Grammar.ParseMembers(s, k + 1, depth))
      else Grammar.Rejected
  }

  lemma FirstMember(s: Text, i: nat, depth: nat)
    requires Grammar.Terminated(s) && i < |s|
    ensures Grammar.ParseMembers(s, i, depth) == AfterMember(s, depth, [], Grammar.ParseMember(s, i, depth))
  {
    hide Grammar.Skip, Grammar.ParseMember;
    var v := Grammar.ParseMember(s, i, depth);
    assert v.Parsed? ==> [] + [v.value] == [v.value];
  }

  /** One round of the member loop after `members` were parsed. */
  lemma MembersRound(s: Text, i: nat, depth: nat, members: seq<Member>)
    requires Grammar.Terminated(s) && i < |s|
    ensures Extend(members, Grammar.ParseMembers(s, i, depth))
            == AfterMember(s, depth, members, Grammar.ParseMember(s, i, depth))
  {
    hide Grammar.Skip, Grammar.ParseMember, Grammar.ParseMembers;
    FirstMember(s, i, depth);
    var v := Grammar.ParseMember(s, i, depth);
    if v.Parsed? {
      var k := Grammar.Skip(s, v.end);
      assert members + ([] + [v.value]) == members + [v.value];
      if s[k] == COMMA {
        ExtendTwice(members, [] + [v.value], Grammar.ParseMembers(s, k + 1, depth));
      }
    }
  }

  class ParseBuffer {
    const content: Text
    var offset: nat
    var depth: nat

    constructor (content: Text)
      requires Grammar.Terminated(content)
      ensures Valid() && this.content == content && offset == 0 && depth == 0
    {
      this.content := content;
      offset, depth := 0, 0;
    }

    ghost predicate Valid()
      reads this
    {
      Grammar.Terminated(content) && offset < |content|
    }

    method SkipWhitespace()
      requires Valid()
      modifies this`offset
      ensures Valid() && offset == Grammar.Skip(content, old(offset))
    {
      while offset < |content| && content[offset] <= SPACE
        invariant offset <= |content|
        invariant Grammar.Skip(content, old(offset)) ==
                  if offset < |content| then Grammar.Skip(content, offset) else |content| - 1
      {
        offset := offset + 1;
      }
      if offset == |content| {
        offset := offset - 1;
      }
    }

    /** The escape or surrogate pair at p, before `end`: writes its character at output[at..] and
        returns how many input bytes it takes (0 on failure) and how many bytes it wrote. */
    method Utf16LiteralToUtf8(p: nat, end: nat, output: array<Byte>, at: nat) returns (taken: nat, wrote: nat)
      requires p <= end <= |content|
      requires var r := Utf16Literal(content[p..end]); r.Some? ==> at + |Utf8(r.value.0)| <= output.Length
      modifies output
      ensures Utf16Literal(content[p..end]).None? ==> taken == 0 && output[..] == old(output[..])
      ensures Utf16Literal(content[p..end]).Some? ==>
                var (cp, n) := Utf16Literal(content[p..end]).value;
                taken == n && wrote == |Utf8(cp)| && output[..at + wrote] == old(output[..at]) + Utf8(cp)
    {
      hide ParseHex4, Utf8;
      taken, wrote := 0, 0;
      if end - p < 6 {
        return;
      }
      ghost var t := content[p..end];
      assert t[2..] == content[p + 2..end];
      var first := ParseHex4Digits(content[p + 2..end]);
      if 0xDC00 <= first <= 0xDFFF {
        return;
      }
      var codepoint: CodePoint := 0;
      var length := 6;
      if 0xD800 <= first <= 0xDBFF {
        length := 12;
        var second := p + 6;
        if end - second < 6 {
          return;
        }
        if content[second] != BACKSLASH || content[second + 1] != 117 {
          return;
        }
        assert t[8..] == content[second + 2..end];
        var code := ParseHex4Digits(content[second + 2..end]);
        if code < 0xDC00 || code > 0xDFFF {
          return;
        }
        codepoint := 0x10000 + first % 1024 * 1024 + code % 1024;
      } else {
        codepoint := first;
      }
      assert Utf16Literal(t) == Some((codepoint, length));
      wrote := EncodeUtf8(codepoint, output, at);
      taken := length;
    }

    /** Second pass over a literal: decodes content[start..end] into output. */
    method DecodeLiteral(start: nat, end: nat, output: array<Byte>) returns (ok: bool, at: nat, stop: nat)
      requires start <= end < |content| && content[end] == QUOTE
      requires Units(content[start..end]) < output.Length
      modifies output
      ensures ok <==> Decode(content[start..end]).Some?
      ensures ok ==> at < output.Length && Some(output[..at]) == Decode(content[start..end])
      ensures stop <= |content|
    {
      hide Utf8, Utf16Literal, Decode, DecodeStep, LetterValue, Units;
      at := 0;
      var p := start;
      DecodeStart(content[start..end]);
      while p < end
        invariant start <= p <= end + 1
        invariant at + Units(content[if p < end then p else end..end]) <= Units(content[start..end])
        invariant Decode(content[start..end]) ==
                  Prepend(output[..at], Decode(content[if p < end then p else end..end]))
        decreases end - p
      {
        ghost var rest := content[p..end];
        ghost var done := output[..at];
        StepAt(content, p, end);
        DecodeRound(done, rest);
        if content[p] != BACKSLASH {
          output[at] := content[p];
          assert output[..at + 1] == done + [content[p]];
          at, p := at + 1, p + 1;
        } else if content[p + 1] == 117 {
          var taken, wrote := Utf16LiteralToUtf8(p, end, output, at);
          if taken == 0 {
            assert DecodeStep(rest).None?;
            return false, at, p;
          }
          at, p := at + wrote, p + taken;
        } else {
          var c := LetterValue(content[p + 1]);
          if c == None {
            return false, at, p;
          }
          output[at] := c.value;
          assert output[..at + 1] == done + [c.value];
          at, p := at + 1, p + 2;
        }
      }
      assert content[end..end] == [];
      DecodeStart(output[..at]);
      ok, stop := true, end;
    }

    /** First pass over the literal whose body starts at `start`: its closing quote and the number of
        bytes that belong to an escape with the byte before them. */
    method FindLiteralEnd(start: nat) returns (ok: bool, end: nat, skipped: nat)
      requires start <= |content|
      ensures ok <==> LiteralEnd(content, start) < |content|
      ensures ok ==> end == LiteralEnd(content, start) && skipped <= end - start
      ensures ok ==> Units(content[start..end]) == end - start - skipped
    {
      hide LiteralEnd, Units;
      end, skipped := start, 0;
      ghost var e := LiteralEnd(content, start);
      while end < |content| && content[end] != QUOTE
        invariant start <= end <= e && skipped <= end - start
        invariant LiteralEnd(content, end) == e
        invariant e < |content| ==>
                    Units(content[start..e]) == end - start - skipped + Units(content[end..e])
        decreases |content| - end
      {
        ScanRound(content, end);
        if content[end] == BACKSLASH {
          if end + 1 >= |content| {
            return false, end, skipped;
          }
          skipped := skipped + 1;
          end := end + 1;
        }
        end := end + 1;
      }
      ScanEnd(content, end);
      ok := end < |content|;
    }

    method ParseString() returns (ok: bool, text: Text)
      requires Valid()
      modifies this`offset
      ensures ok <==> Grammar.ParseString(content, old(offset)).Parsed?
      ensures ok ==> Grammar.ParseString(content, old(offset)) == Grammar.Parsed(text, offset)
      ensures offset <= |content|
    {
      hide LiteralEnd, Decode, Units;
      text := [];
      var start := offset + 1;
      if content[offset] != QUOTE {
        offset := start;
        return false, text;
      }
      var end, skipped;
      ok, end, skipped := FindLiteralEnd(start);
      if !ok {
        offset := start;
        return;
      }
      var allocationLength := (end - offset) - skipped;
      var output := new Byte[allocationLength + 1];
      var length, stop;
      ok, length, stop := DecodeLiteral(start, end, output);
      if !ok {
        offset := stop;
        return;
      }
      output[length] := NUL;
      text := CString(output[..length]);
      offset := end + 1;
    }

    /** Copies the bytes a number may consist of, up to the size of the temporary buffer. */
    method CopyNumberBytes(number: array<Byte>) returns (i: nat)
      requires Valid() && number.Length == NUMBER_BUFFER
      modifies number
      ensures i < NUMBER_BUFFER && number[..i] == NumberBytes(content, offset, NUMBER_BUFFER - 1)
    {
      hide NumberBytes, IsNumberByte;
      ghost var t := NumberBytes(content, offset, NUMBER_BUFFER - 1);
      i := 0;
      while i < NUMBER_BUFFER - 1 && offset + i < |content| && IsNumberByte(content[offset + i])
        invariant i <= |t| && forall k :: 0 <= k < i ==> number[k] == t[k]
      {
        number[i] := content[offset + i];
        assert number[i] == t[i];
        i := i + 1;
      }
      NumberBytesStop(content, offset, NUMBER_BUFFER - 1, i);
      number[i] := NUL;
    }

    method ParseNumber() returns (ok: bool, number: real)
      requires Valid()
      modifies this`offset
      ensures ok <==> Grammar.ParseNumber(content, old(offset)).Parsed?
      ensures ok ==> Grammar.ParseNumber(content, old(offset)) == Grammar.Parsed(Number(number), offset)
      ensures offset < |content|
    {
      hide Strtod, NumberBytes;
      number := 0.0;
      var numberString := new Byte[NUMBER_BUFFER];
      var i := CopyNumberBytes(numberString);
      var r := Strtod(numberString[..i]);
      if r.None? {
        return false, number;
      }
      Grammar.NumberBytesEnd(content, offset, NUMBER_BUFFER - 1);
      ok, number := true, r.value.0;
      offset := offset + r.value.1;
    }

    predicate StartsWith(keyword: Text)
      reads this`offset
      requires offset <= |content|
    {
      offset + |keyword| <= |content| && content[offset..offset + |keyword|] == keyword
    }

    /** Parses a value into the empty node `item`. */
    method ParseValue(item: Node) returns (ok: bool, ghost v: Value, ghost u: Tree)
      requires Valid() && item.child == null
      modifies this`offset, this`depth, item`item, item`child
      ensures ok <==> Grammar.ParseValue(content, old(offset), old(depth)).Parsed?
      ensures ok ==> Grammar.ParseValue(content, old(offset), old(depth)) == Grammar.Parsed(v, offset)
      ensures ok ==> Stands(item, u, v) && fresh(NodesOf(u.kids))
      ensures ok ==> Valid() && depth == old(depth) && offset > old(offset)
      ensures offset <= |content|
      decreases |content| - offset, 1
    {
      hide Grammar.ParseArray, Grammar.ParseObject, Grammar.ParseString, Grammar.ParseNumber, Stands, NodesOf;
      KeywordAt(content, offset, NULL_TEXT);
      KeywordAt(content, offset, FALSE_TEXT);
      KeywordAt(content, offset, TRUE_TEXT);
      ok, v, u := true, Null, Tree(item, INull, item.key, []);
      if StartsWith(NULL_TEXT) {
        item.item := INull;
        offset := offset + 4;
      } else if StartsWith(FALSE_TEXT) {
        item.item, v := IFalse, False;
        offset := offset + 5;
      } else if StartsWith(TRUE_TEXT) {
        item.item, v := ITrue, True;
        offset := offset + 4;
      } else if content[offset] == QUOTE {
        var text;
        ok, text := ParseString();
        item.item, v := IString(text), String(text);
      } else if content[offset] == MINUS || IsDigit(content[offset]) {
        var number;
        ok, number := ParseNumber();
        item.item, v := INumber(number), Number(number);
      } else if content[offset] == LBRACKET {
        ok, v, u := ParseArray(item);
        return;
      } else if content[offset] == LBRACE {
        ok, v, u := ParseObject(item);
        return;
      } else {
        return false, v, u;
      }
      LeafStands(item);
      u := Tree(item, item.item, item.key, []);
    }

    /** White space and a value, into the empty node `item`. */
    method ParseNextValue(item: Node) returns (ok: bool, ghost v: Value, ghost u: Tree)
      requires Valid() && item.child == null
      modifies this`offset, this`depth, item`item, item`child
      ensures var r := Grammar.ParseValue(content, Grammar.Skip(content, old(offset)), old(depth));
              (ok <==> r.Parsed?) && (ok ==> r == Grammar.Parsed(v, offset))
      ensures ok ==> Stands(item, u, v) && fresh(NodesOf(u.kids))
      ensures ok ==> Valid() && depth == old(depth) && offset > old(offset)
      ensures offset <= |content|
      decreases |content| - offset, 2
    {
      hide Grammar.ParseValue, Stands, NodesOf;
      SkipWhitespace();
      ok, v, u := ParseValue(item);
    }

    /** The body of the element loop: a new node is linked behind the others and filled. */
    method ParseItem(head: Node?, current: Node?, ghost us: seq<Tree>, ghost all: set<Node>, ghost below: set<Node>)
      returns (ok: bool, head': Node, newItem: Node, ghost v: Value, ghost w: Tree, ghost below': set<Node>)
      requires Valid() && offset < |content| - 1 && Built(head, us, all, below)
      requires current == if us == [] then null else us[|us| - 1].node
      modifies this`offset, this`depth, all`next
      ensures var r := Grammar.ParseValue(content, Grammar.Skip(content, old(offset) + 1), old(depth));
              (ok <==> r.Parsed?) && (ok ==> r == Grammar.Parsed(v, offset))
      ensures ok ==> w.node == newItem && Keyed(w) && ToValue(w) == v
                     && Built(head', us + [w], all + Nodes(w), below') && fresh(Nodes(w))
      ensures ok ==> Valid() && depth == old(depth) && offset > old(offset) + 1
      ensures offset <= |content|
      decreases |content| - (offset + 1), 3
    {
      hide Grammar.ParseValue, Grammar.Skip, Grammar.Terminated, Matches, NodesOf, Nodes, Built, Begun;
      AllAllocated(us);
      BuiltInside(head, us, all, below);
      newItem := new Node();
      head' := LinkNew(head, current, newItem, us, all, below);
      offset := offset + 1;
      ok, v, w := ParseNextValue(newItem);
      below' := below + NodesOf(w.kids);
      if ok {
        Adopt(head', us, all, below, w);
        RootOutside(w, NodesOf(w.kids));
      }
    }

    /** The element loop; it starts at the byte in front of the first element and ends at the closing bracket, with
        the elements linked in order from `head` on. */
    method ParseItemList() returns (ok: bool, head: Node?, ghost items: seq<Value>, ghost us: seq<Tree>,
                                    ghost all: set<Node>, ghost below: set<Node>)
      requires Valid() && offset < |content| - 1
      modifies this`offset, this`depth
      ensures ok <==> Grammar.ParseItems(content, old(offset) + 1, old(depth)).Parsed?
      ensures ok ==> Grammar.ParseItems(content, old(offset) + 1, old(depth)) == Grammar.Parsed(items, offset + 1)
      ensures ok ==> Built(head, us, all, below) && fresh(all) && StandForItems(us, items)
      ensures ok ==> Valid() && depth == old(depth) && content[offset] == RBRACKET
      ensures offset <= |content|
      decreases |content| - (offset + 1), 4
    {
      hide Grammar.ParseValue, Grammar.Skip, Grammar.ParseItems, Grammar.Terminated, Built, StandForItems;
      items, us, all, below := [], [], {}, {};
      head := null;
      var current: Node? := null;
      NothingBuilt();
      NothingStands();
      ExtendNothing(Grammar.ParseItems(content, offset + 1, depth));
      while true
        invariant old(offset) <= offset < |content| - 1 && depth == old(depth)
        invariant Grammar.ParseItems(content, old(offset) + 1, depth) ==
                  Extend(items, Grammar.ParseItems(content, offset + 1, depth))
        invariant Built(head, us, all, below) && fresh(all) && StandForItems(us, items)
        invariant current == if us == [] then null else us[|us| - 1].node
        decreases |content| - offset
      {
        ItemsRound(content, offset + 1, depth, items);
        ghost var v, w, below';
        var head', newItem;
        ok, head', newItem, v, w, below' := ParseItem(head, current, us, all, below);
        if !ok {
          return;
        }
        assert Built(head', us + [w], all + Nodes(w), below');
        SkipWhitespace();
        assert Built(head', us + [w], all + Nodes(w), below');
        OneMoreItem(us, items, w);
        head, current := head', newItem;
        us, items, all, below := us + [w], items + [v], all + Nodes(w), below';
        if content[offset] != COMMA {
          break;
        }
        NotLast(content, offset);
      }
      ok := content[offset] == RBRACKET;
    }

    /** What stands between the brackets, from the opening bracket to the closing one. */
    method ParseElements() returns (ok: bool, head: Node?, ghost items: seq<Value>, ghost us: seq<Tree>,
                                    ghost all: set<Node>, ghost below: set<Node>)
      requires Valid() && offset < |content| - 1
      modifies this`offset, this`depth
      ensures var j := Grammar.Skip(content, old(offset) + 1);
              var r := Grammar.ParseItems(content, old(offset) + 1, old(depth));
              (ok <==> content[j] == RBRACKET || r.Parsed?)
              && (ok ==> if content[j] == RBRACKET then items == [] && offset == j
                         else r == Grammar.Parsed(items, offset + 1))
      ensures ok ==> Built(head, us, all, below) && fresh(all) && StandForItems(us, items)
      ensures ok ==> Valid() && depth == old(depth) && content[offset] == RBRACKET
      ensures offset <= |content|
      decreases |content| - (offset + 1), 5
    {
      hide Grammar.ParseValue, Grammar.Skip, Grammar.ParseItems, Grammar.Terminated, Built, StandForItems;
      items, us, all, below := [], [], {}, {};
      ok, head := true, null;
      offset := offset + 1;
      ItemsStart(content, offset, depth);
      SkipWhitespace();
      if content[offset] == RBRACKET {
        NothingBuilt();
        NothingStands();
      } else {
        // step back to the byte in front of the first element
        offset := offset - 1;
        ok, head, items, us, all, below := ParseItemList();
      }
    }

    method ParseArray(item: Node) returns (ok: bool, ghost v: Value, ghost u: Tree)
      requires Valid() && content[offset] == LBRACKET
      modifies this`offset, this`depth, item`item, item`child
      ensures ok <==> Grammar.ParseArray(content, old(offset), old(depth)).Parsed?
      ensures ok ==> Grammar.ParseArray(content, old(offset), old(depth)) == Grammar.Parsed(v, offset)
      ensures ok ==> Stands(item, u, v) && fresh(NodesOf(u.kids))
      ensures ok ==> Valid() && depth == old(depth)
      ensures offset <= |content|
      decreases |content| - offset, 0
    {
      hide Grammar.Skip, Grammar.ParseItems, Built, StandForItems, NodesOf, Stands;
      v, u := Null, Tree(item, INull, item.key, []);
      if depth >= NESTING_LIMIT {
        return false, v, u;
      }
      depth := depth + 1;
      NotLast(content, offset);
      ghost var items, us, all, below;
      var head;
      ok, head, items, us, all, below := ParseElements();
      if !ok {
        return;
      }
      BuiltInside(head, us, all, below);
      depth := depth - 1;
      item.item := IArray;
      item.child := head;
      ArrayStands(item, us, all, below, items);
      v, u := Array(items), Tree(item, IArray, item.key, us);
      NotLast(content, offset);
      offset := offset + 1;
    }

    /** A key, a colon and a value, for the new node `item`. */
    method ParseKeyAndValue(item: Node) returns (ok: bool, ghost m: Member, ghost u: Tree)
      requires Valid() && item.child == null
      modifies this`offset, this`depth, item`item, item`child, item`key
      ensures ok <==> Grammar.ParseMember(content, old(offset), old(depth)).Parsed?
      ensures ok ==> Grammar.ParseMember(content, old(offset), old(depth)) == Grammar.Parsed(m, offset)
      ensures ok ==> Stands(item, u, m.value) && u.key == Some(m.key) && fresh(NodesOf(u.kids))
      ensures ok ==> Valid() && depth == old(depth) && offset > old(offset)
      ensures offset <= |content|
      decreases |content| - offset, 2
    {
      hide Grammar.ParseValue, Grammar.ParseString, Grammar.Skip, Grammar.Terminated, Stands, NodesOf;
      m, u := Member([], Null), Tree(item, INull, None, []);
      SkipWhitespace();
      var key;
      ok, key := ParseString();
      if !ok {
        return;
      }
      SkipWhitespace();
      item.item, item.key := IString([]), Some(key);
      if content[offset] != COLON {
        return false, m, u;
      }
      NotLast(content, offset);
      offset := offset + 1;
      SkipWhitespace();
      ghost var v;
      ok, v, u := ParseValue(item);
      m := Member(key, v);
      if ok {
        KeyStands(item, u, v);
      }
    }

    /** The body of the member loop: a new node is linked behind the others and filled. */
    method ParseMember(head: Node?, current: Node?, ghost us: seq<Tree>, ghost all: set<Node>, ghost below: set<Node>)
      returns (ok: bool, head': Node, newItem: Node, ghost m: Member, ghost w: Tree, ghost below': set<Node>)
      requires Valid() && offset < |content| - 1 && Built(head, us, all, below)
      requires current == if us == [] then null else us[|us| - 1].node
      modifies this`offset, this`depth, all`next
      ensures var r := Grammar.ParseMember(content, old(offset) + 1, old(depth));
              (ok <==> r.Parsed?) && (ok ==> r == Grammar.Parsed(m, offset))
      ensures ok ==> w.node == newItem && Keyed(w) && w.key == Some(m.key) && ToValue(w) == m.value
                     && Built(head', us + [w], all + Nodes(w), below') && fresh(Nodes(w))
      ensures ok ==> Valid() && depth == old(depth) && offset > old(offset) + 1
      ensures offset <= |content|
      decreases |content| - (offset + 1), 3
    {
      hide Grammar.ParseMember, Matches, NodesOf, Nodes, Built, Begun;
      AllAllocated(us);
      BuiltInside(head, us, all, below);
      newItem := new Node();
      head' := LinkNew(head, current, newItem, us, all, below);
      offset := offset + 1;
      ok, m, w := ParseKeyAndValue(newItem);
      below' := below + NodesOf(w.kids);
      if ok {
        Adopt(head', us, all, below, w);
        RootOutside(w, NodesOf(w.kids));
      }
    }

    /** The member loop; it starts at the byte in front of the first member and ends at the closing brace, with the
        members linked in order from `head` on. */
    method ParseMemberList() returns (ok: bool, head: Node?, ghost members: seq<Member>, ghost us: seq<Tree>,
                                      ghost all: set<Node>, ghost below: set<Node>)
      requires Valid() && offset < |content| - 1
      modifies this`offset, this`depth
      ensures ok <==> Grammar.ParseMembers(content, old(offset) + 1, old(depth)).Parsed?
      ensures ok ==> Grammar.ParseMembers(content, old(offset) + 1, old(depth)) == Grammar.Parsed(members, offset + 1)
      ensures ok ==> Built(head, us, all, below) && fresh(all) && StandForMembers(us, members)
      ensures ok ==> Valid() && depth == old(depth) && content[offset] == RBRACE
      ensures offset <= |content|
      decreases |content| - (offset + 1), 4
    {
      hide Grammar.ParseMember, Grammar.Skip, Grammar.ParseMembers, Grammar.Terminated, Built, StandForMembers;
      members, us, all, below := [], [], {}, {};
      head := null;
      var current: Node? := null;
      NothingBuilt();
      NothingStands();
      ExtendNothing(Grammar.ParseMembers(content, offset + 1, depth));
      while true
        invariant old(offset) <= offset < |content| - 1 && depth == old(depth)
        invariant Grammar.ParseMembers(content, old(offset) + 1, depth) ==
                  Extend(members, Grammar.ParseMembers(content, offset + 1, depth))
        invariant Built(head, us, all, below) && fresh(all) && StandForMembers(us, members)
        invariant current == if us == [] then null else us[|us| - 1].node
        decreases |content| - offset
      {
        MembersRound(content, offset + 1, depth, members);
        ghost var m, w, below';
        var head', newItem;
        ok, head', newItem, m, w, below' := ParseMember(head, current, us, all, below);
        if !ok {
          return;
        }
        assert Built(head', us + [w], all + Nodes(w), below');
        SkipWhitespace();
        assert Built(head', us + [w], all + Nodes(w), below');
        OneMoreMember(us, members, w);
        head, current := head', newItem;
        us, members, all, below := us + [w], members + [m], all + Nodes(w), below';
        if content[offset] != COMMA {
          break;
        }
        NotLast(content, offset);
      }
      ok := content[offset] == RBRACE;
    }

    /** What stands between the braces, from the opening brace to the closing one. */
    method ParseMembers() returns (ok: bool, head: Node?, ghost members: seq<Member>, ghost us: seq<Tree>,
                                   ghost all: set<Node>, ghost below: set<Node>)
      requires Valid() && offset < |content| - 1
      modifies this`offset, this`depth
      ensures var j := Grammar.Skip(content, old(offset) + 1);
              var r := Grammar.ParseMembers(content, old(offset) + 1, old(depth));
              (ok <==> content[j] == RBRACE || r.Parsed?)
              && (ok ==> if content[j] == RBRACE then members == [] && offset == j
                         else r == Grammar.Parsed(members, offset + 1))
      ensures ok ==> Built(head, us, all, below) && fresh(all) && StandForMembers(us, members)
      ensures ok ==> Valid() && depth == old(depth) && content[offset] == RBRACE
      ensures offset <= |content|
      decreases |content| - (offset + 1), 5
    {
      hide Grammar.ParseMember, Grammar.Skip, Grammar.ParseMembers, Grammar.Terminated, Built, StandForMembers;
      members, us, all, below := [], [], {}, {};
      ok, head := true, null;
      offset := offset + 1;
      MembersStart(content, offset, depth);
      SkipWhitespace();
      if content[offset] == RBRACE {
        NothingBuilt();
        NothingStands();
      } else {
        // step back to the byte in front of the first member
        offset := offset - 1;
        ok, head, members, us, all, below := ParseMemberList();
      }
    }

    method ParseObject(item: Node) returns (ok: bool, ghost v: Value, ghost u: Tree)
      requires Valid() && content[offset] == LBRACE
      modifies this`offset, this`depth, item`item, item`child
      ensures ok <==> Grammar.ParseObject(content, old(offset), old(depth)).Parsed?
      ensures ok ==> Grammar.ParseObject(content, old(offset), old(depth)) == Grammar.Parsed(v, offset)
      ensures ok ==> Stands(item, u, v) && fresh(NodesOf(u.kids))
      ensures ok ==> Valid() && depth == old(depth)
      ensures offset <= |content|
      decreases |content| - offset, 0
    {
      hide Grammar.Skip, Grammar.ParseMembers, Built, StandForMembers, NodesOf, Stands;
      v, u := Null, Tree(item, INull, item.key, []);
      if depth >= NESTING_LIMIT {
        return false, v, u;
      }
      depth := depth + 1;
      NotLast(content, offset);
      ghost var members, us, all, below;
      var head;
      ok, head, members, us, all, below := ParseMembers();
      if !ok {
        return;
      }
      BuiltInside(head, us, all, below);
      depth := depth - 1;
      item.item := IObject;
      item.child := head;
      ObjectStands(item, us, all, below, members);
      v, u := Object(members), Tree(item, IObject, item.key, us);
      NotLast(content, offset);
      offset := offset + 1;
    }

    method SkipByteOrderMark()
      requires Valid() && offset == 0
      modifies this`offset
      ensures Valid()
      ensures offset ==
              if |content| > 4 && content[0] == 0xEF && content[1] == 0xBB && content[2] == 0xBF then 3 else 0
    {
      if 4 < |content| && content[..3] == [0xEF, 0xBB, 0xBF] {
        offset := offset + 3;
      }
      assert |content| > 4 ==> content[..3] == [content[0], content[1], content[2]];
    }

    /** The whole text: byte order mark, white space and a value, and if it is required the end behind it. */
    method ParseRoot(item: Node, requireEnd: bool) returns (ok: bool, ghost v: Value, ghost u: Tree)
      requires Valid() && offset == 0 && depth == 0 && item.child == null
      modifies this`offset, this`depth, item`item, item`child
      ensures var start :=
                if |content| > 4 && content[0] == 0xEF && content[1] == 0xBB && content[2] == 0xBF then 3 else 0;
              var r := Grammar.ParseValue(content, Grammar.Skip(content, start), 0);
              (ok <==> r.Parsed? && (requireEnd ==> content[Grammar.Skip(content, r.end)] == NUL))
              && (ok ==> v == r.value && offset == if requireEnd then Grammar.Skip(content, r.end) else r.end)
      ensures ok ==> Stands(item, u, v) && Nodes(u) == {item} + NodesOf(u.kids) && fresh(NodesOf(u.kids))
      ensures offset <= |content|
    {
      hide Grammar.ParseValue, Grammar.Skip, Stands, NodesOf, Nodes;
      SkipByteOrderMark();
      SkipWhitespace();
      ok, v, u := ParseValue(item);
      if ok {
        KeyStands(item, u, v);
        if requireEnd {
          AllAllocated(u.kids);
          assert Stands(item, u, v);
          SkipWhitespace();
          ok := content[offset] == NUL;
        }
      }
    }
  }

  /** cJSON_ParseWithOpts: a new tree for the parsed value and the offset behind it; for text that is not accepted
      NULL and an offset inside the text or at its end. */
  method ParseWithOpts(value: Option<Text>, requireNullTerminated: bool)
    returns (item: Node?, parseEnd: nat, ghost t: Option<Tree>)
    requires value.Some? ==> NulFree(value.value)
    ensures value.None? ==> item == null
    ensures value.Some? ==>
              match Grammar.ParseDocument(value.value, requireNullTerminated)
              case Rejected => item == null && parseEnd <= |value.value|
              case Parsed(v, e) =>
                parseEnd == e && item != null && t.Some? && Stands(item, t.value, v)
                && fresh(Nodes(t.value)) && Detached(item)
  {
    hide Grammar.ParseValue, Grammar.Skip, Stands, NodesOf, Nodes;
    item, parseEnd, t := null, 0, None;
    if value.None? {
      return;
    }
    var content := value.value + [NUL];
    assert content[..|content| - 1] == value.value;
    var buffer := new ParseBuffer(content);
    var newItem := new Node();
    ghost var v, u;
    var ok;
    ok, v, u := buffer.ParseRoot(newItem, requireNullTerminated);
    if ok {
      item, parseEnd, t := newItem, buffer.offset, Some(u);
    } else {
      parseEnd := if buffer.offset < |content| then buffer.offset else |content| - 1;
    }
  }
}
