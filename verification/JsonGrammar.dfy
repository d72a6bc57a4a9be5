/** What the recursive-descent parser of 3rdparty/cjson/cJSON.c computes, as functions of the whole
    input, an offset and a depth; JsonParser proves the parser itself equal to them. */
module JsonGrammar {
  import opened Bytes
  import opened Decimals
  import opened Json
  import opened JsonString
  import opened JsonNumber

  /** An accepted piece of input: its value and the offset behind it. */
  datatype Parsed<+T> = Rejected | Parsed(value: T, end: nat)

  /** The parser's input is a C string together with its terminator. */
  predicate Terminated(s: Text) {
    |s| > 0 && s[|s| - 1] == NUL && NulFree(s[..|s| - 1])
  }

  lemma AtEndsInside(s: Text, i: nat, t: Text)
    requires Terminated(s) && At(s, i, t) && t != [] && t[|t| - 1] != NUL
    ensures i + |t| < |s|
  {
    assert s[i + (|t| - 1)] == t[|t| - 1];
  }

  /** The first offset from i on whose byte is not white space, or that of the terminator. */
  function Skip(s: Text, i: nat): (j: nat)
    requires i < |s|
    ensures i <= j < |s|
    ensures forall k :: i <= k < j ==> s[k] <= SPACE
    ensures j < |s| - 1 ==> s[j] > SPACE
    decreases |s| - i
  {
    if i == |s| - 1 || s[i] > SPACE then i else Skip(s, i + 1)
  }

  function ParseString(s: Text, i: nat): (r: Parsed<Text>)
    requires Terminated(s) && i < |s|
    ensures r.Parsed? ==> i < r.end < |s|
  {
    if s[i] != QUOTE then Rejected
    else
      var e := LiteralEnd(s, i + 1);
      if e == |s| then Rejected
      else
        match Decode(s[i + 1..e])
        case None => Rejected
        case Some(out) => Parsed(CString(out), e + 1)
  }

  function ParseNumber(s: Text, i: nat): (r: Parsed<Value>)
    requires Terminated(s) && i < |s|
    ensures r.Parsed? ==> i < r.end < |s|
  {
    var t := NumberBytes(s, i, NUMBER_BUFFER - 1);
    match Strtod(t)
    case None => Rejected
    case Some((v, n)) =>
      NumberBytesEnd(s, i, NUMBER_BUFFER - 1);
      Parsed(Number(v), i + n)
  }

  lemma NumberBytesEnd(s: Text, i: nat, n: nat)
    requires Terminated(s) && i < |s|
    ensures i + |NumberBytes(s, i, n)| < |s|
    decreases n
  {
    if n > 0 && IsNumberByte(s[i]) {
      NumberBytesEnd(s, i + 1, n - 1);
    }
  }

  /** depth is the number of arrays and objects already open. */
  function ParseValue(s: Text, i: nat, depth: nat): (r: Parsed<Value>)
    requires Terminated(s) && i < |s|
    ensures r.Parsed? ==> i < r.end < |s|
    decreases |s| - i, 1
  {
    if At(s, i, NULL_TEXT) then AtEndsInside(s, i, NULL_TEXT); Parsed(Null, i + 4)
    else if At(s, i, FALSE_TEXT) then AtEndsInside(s, i, FALSE_TEXT); Parsed(False, i + 5)
    else if At(s, i, TRUE_TEXT) then AtEndsInside(s, i, TRUE_TEXT); Parsed(True, i + 4)
    else if s[i] == QUOTE then
      match ParseString(s, i)
      case Rejected => Rejected
      case Parsed(t, e) => Parsed(String(t), e)
    else if s[i] == MINUS || IsDigit(s[i]) then ParseNumber(s, i)
    else if s[i] == LBRACKET then ParseArray(s, i, depth)
    else if s[i] == LBRACE then ParseObject(s, i, depth)
    else Rejected
  }

  function ParseArray(s: Text, i: nat, depth: nat): (r: Parsed<Value>)
    requires Terminated(s) && i < |s| && s[i] == LBRACKET
    ensures r.Parsed? ==> i < r.end < |s|
    decreases |s| - i, 0
  {
    if depth >= NESTING_LIMIT then Rejected
    else
      var j := Skip(s, i + 1);
      if s[j] == RBRACKET then Parsed(Array([]), j + 1)
      else
        match ParseItems(s, i + 1, depth + 1)
        case Rejected => Rejected
        case Parsed(items, e) => Parsed(Array(items), e)
  }

  /** The elements from offset i, which lies behind the opening bracket or a comma, to the closing
      bracket. */
  function ParseItems(s: Text, i: nat, depth: nat): (r: Parsed<seq<Value>>)
    requires Terminated(s) && i < |s|
    ensures r.Parsed? ==> i < r.end < |s|
    decreases |s| - i, 2
  {
    match ParseValue(s, Skip(s, i), depth)
    case Rejected => Rejected
    case Parsed(v, e) =>
      var k := Skip(s, e);
      if s[k] == RBRACKET then Parsed([v], k + 1)
      else if s[k] != COMMA then Rejected
      else
        match ParseItems(s, k + 1, depth)
        case Rejected => Rejected
        case Parsed(vs, e') => Parsed([v] + vs, e')
  }

  function ParseObject(s: Text, i: nat, depth: nat): (r: Parsed<Value>)
    requires Terminated(s) && i < |s| && s[i] == LBRACE
    ensures r.Parsed? ==> i < r.end < |s|
    decreases |s| - i, 0
  {
    if depth >= NESTING_LIMIT then Rejected
    else
      var j := Skip(s, i + 1);
      if s[j] == RBRACE then Parsed(Object([]), j + 1)
      else
        match ParseMembers(s, i + 1, depth + 1)
        case Rejected => Rejected
        case Parsed(members, e) => Parsed(Object(members), e)
  }

  function ParseMember(s: Text, i: nat, depth: nat): (r: Parsed<Member>)
    requires Terminated(s) && i < |s|
    ensures r.Parsed? ==> i < r.end < |s|
    decreases |s| - i, 2
  {
    match ParseString(s, Skip(s, i))
    case Rejected => Rejected
    case Parsed(key, e) =>
      var c := Skip(s, e);
      if s[c] != COLON then Rejected
      else
        match ParseValue(s, Skip(s, c + 1), depth)
        case Rejected => Rejected
        case Parsed(v, e') => Parsed(Member(key, v), e')
  }

  function ParseMembers(s: Text, i: nat, depth: nat): (r: Parsed<seq<Member>>)
    requires Terminated(s) && i < |s|
    ensures r.Parsed? ==> i < r.end < |s|
    decreases |s| - i, 3
  {
    match ParseMember(s, i, depth)
    case Rejected => Rejected
    case Parsed(m, e) =>
      var k := Skip(s, e);
      if s[k] == RBRACE then Parsed([m], k + 1)
      else if s[k] != COMMA then Rejected
      else
        match ParseMembers(s, k + 1, depth)
        case Rejected => Rejected
        case Parsed(ms, e') => Parsed([m] + ms, e')
  }

  /** cJSON_ParseWithOpts on the C string text. */
  function ParseDocument(text: Text, requireEnd: bool): (r: Parsed<Value>)
    requires NulFree(text)
  {
    var s: Text := text + [NUL];
    assert s[..|s| - 1] == text;
    var start := if |s| > 4 && s[0] == 0xEF && s[1] == 0xBB && s[2] == 0xBF then 3 else 0;
    var r := ParseValue(s, Skip(s, start), 0);
    if r.Parsed? && requireEnd then
      var e := Skip(s, r.end);
      if s[e] != NUL then Rejected else Parsed(r.value, e)
    else r
  }

  // ---------------------------------------------------------------- nesting

  /** No accepted value nests deeper than the limit allows. */
  lemma {:induction false} ParseValueNesting(s: Text, i: nat, depth: nat)
    requires Terminated(s) && i < |s| && depth <= NESTING_LIMIT
    ensures ParseValue(s, i, depth).Parsed? ==> depth + Nesting(ParseValue(s, i, depth).value) <= NESTING_LIMIT
    decreases |s| - i, 0
  {
    hide ParseArray, ParseObject, ParseNumber, ParseString, At, ItemsNesting, MembersNesting;
    if s[i] == LBRACKET {
      ParseArrayNesting(s, i, depth);
    }
    if s[i] == LBRACE {
      ParseObjectNesting(s, i, depth);
    }
    NumberShape(s, i);
  }

  lemma NumberShape(s: Text, i: nat)
    requires Terminated(s) && i < |s|
    ensures ParseNumber(s, i).Parsed? ==> ParseNumber(s, i).value.Number?
  {
    hide NumberBytes, Strtod;
  }

  lemma {:induction false} ParseArrayNesting(s: Text, i: nat, depth: nat)
    requires Terminated(s) && i < |s| && depth <= NESTING_LIMIT && s[i] == LBRACKET
    ensures ParseArray(s, i, depth).Parsed? ==> depth + Nesting(ParseArray(s, i, depth).value) <= NESTING_LIMIT
    decreases |s| - i - 1, 3
  {
    hide ParseItems, Skip, ItemsNesting;
    EmptyNesting();
    if depth < NESTING_LIMIT && i + 1 < |s| {
      ParseItemsNesting(s, i + 1, depth + 1);
    }
  }

  lemma {:induction false} ParseObjectNesting(s: Text, i: nat, depth: nat)
    requires Terminated(s) && i < |s| && depth <= NESTING_LIMIT && s[i] == LBRACE
    ensures ParseObject(s, i, depth).Parsed? ==> depth + Nesting(ParseObject(s, i, depth).value) <= NESTING_LIMIT
    decreases |s| - i - 1, 3
  {
    hide ParseMembers, Skip, MembersNesting;
    EmptyNesting();
    if depth < NESTING_LIMIT && i + 1 < |s| {
      ParseMembersNesting(s, i + 1, depth + 1);
    }
  }

  lemma EmptyNesting()
    ensures ItemsNesting([]) == 0 && MembersNesting([]) == 0
  {
  }

  lemma {:induction false} ParseItemsNesting(s: Text, i: nat, depth: nat)
    requires Terminated(s) && i < |s| && depth <= NESTING_LIMIT
    ensures ParseItems(s, i, depth).Parsed? ==> depth + ItemsNesting(ParseItems(s, i, depth).value) <= NESTING_LIMIT
    decreases |s| - i, 1
  {
    hide ParseValue, Nesting, Skip;
    var r := ParseItems(s, i, depth);
    if r.Parsed? {
      ParseValueNesting(s, Skip(s, i), depth);
      var k := Skip(s, ParseValue(s, Skip(s, i), depth).end);
      if s[k] == COMMA {
        ParseItemsNesting(s, k + 1, depth);
        assert r.value[1..] == ParseItems(s, k + 1, depth).value;
      }
    }
  }

  lemma {:induction false} ParseMemberNesting(s: Text, i: nat, depth: nat)
    requires Terminated(s) && i < |s| && depth <= NESTING_LIMIT
    ensures ParseMember(s, i, depth).Parsed? ==>
              depth + Nesting(ParseMember(s, i, depth).value.value) <= NESTING_LIMIT
    decreases |s| - i, 1
  {
    hide ParseString, Nesting, ParseValue, Skip;
    if ParseMember(s, i, depth).Parsed? && ParseString(s, Skip(s, i)).Parsed? {
      var c := Skip(s, ParseString(s, Skip(s, i)).end);
      ParseValueNesting(s, Skip(s, c + 1), depth);
    }
  }

  lemma {:induction false} ParseMembersNesting(s: Text, i: nat, depth: nat)
    requires Terminated(s) && i < |s| && depth <= NESTING_LIMIT
    ensures ParseMembers(s, i, depth).Parsed? ==>
              depth + MembersNesting(ParseMembers(s, i, depth).value) <= NESTING_LIMIT
    decreases |s| - i, 2
  {
    hide ParseMember, Nesting, Skip;
    var r := ParseMembers(s, i, depth);
    if r.Parsed? {
      ParseMemberNesting(s, i, depth);
      var k := Skip(s, ParseMember(s, i, depth).end);
      if s[k] == COMMA {
        ParseMembersNesting(s, k + 1, depth);
        assert r.value[1..] == ParseMembers(s, k + 1, depth).value;
      }
    }
  }
}
