/** JSON values and the text the printer of 3rdparty/cjson/cJSON.c gives them. */
module Json {
  import opened Bytes
  import opened Decimals
  import opened JsonString

  /** Numbers carry their exact value; rounding to a double is not modelled. */
  datatype Value =
    | Null
    | False
    | True
    | Number(value: real)
    | String(text: Text)
    | Array(items: seq<Value>)
    | Object(members: seq<Member>)

  datatype Member = Member(key: Text, value: Value)

  const NESTING_LIMIT := 1000
  const PRINTABLE_LIMIT := 1_000_000_000_000_000

  function Max(a: nat, b: nat): nat { if a < b then b else a }

  // ---------------------------------------------------------------- shape of a value

  /** How deep arrays and objects nest. */
  function Nesting(v: Value): nat {
    match v
    case Array(items) => 1 + ItemsNesting(items)
    case Object(members) => 1 + MembersNesting(members)
    case _ => 0
  }

  function ItemsNesting(items: seq<Value>): nat {
    if items == [] then 0 else Max(Nesting(items[0]), ItemsNesting(items[1..]))
  }

  function MembersNesting(members: seq<Member>): nat {
    if members == [] then 0 else Max(Nesting(members[0].value), MembersNesting(members[1..]))
  }

  /** The values whose printed form is modelled: strings are C strings and numbers are integers that
      "%1.15g" writes digit by digit. */
  predicate Printable(v: Value) {
    match v
    case Number(r) => IsShortInteger(r)
    case String(s) => NulFree(s)
    case Array(items) => ItemsPrintable(items)
    case Object(members) => MembersPrintable(members)
    case _ => true
  }

  predicate IsShortInteger(r: real) {
    r == r.Floor as real && -PRINTABLE_LIMIT < r.Floor < PRINTABLE_LIMIT
  }

  predicate ItemsPrintable(items: seq<Value>) {
    items == [] || (Printable(items[0]) && ItemsPrintable(items[1..]))
  }

  predicate MembersPrintable(members: seq<Member>) {
    members == [] || (NulFree(members[0].key) && Printable(members[0].value) && MembersPrintable(members[1..]))
  }

  // ---------------------------------------------------------------- rendering

  const NULL_TEXT: Text := [110, 117, 108, 108]
  const FALSE_TEXT: Text := [102, 97, 108, 115, 101]
  const TRUE_TEXT: Text := [116, 114, 117, 101]

  function Decimal(n: int): (r: Text)
    ensures NulFree(r) && |r| >= 1
    ensures IsDigit(r[0]) || r[0] == MINUS
  {
    if n < 0 then [MINUS] + Digits(-n) else Digits(n)
  }

  function Tabs(n: nat): (r: Text)
    ensures |r| == n && forall k :: 0 <= k < n ==> r[k] == TAB
  {
    seq(n, _ => TAB)
  }

  /** Between two array elements. */
  function ItemGap(format: bool): Text { if format then [COMMA, SPACE] else [COMMA] }

  /** Between a key and its value. */
  function KeyGap(format: bool): Text { if format then [COLON, TAB] else [COLON] }

  function LineBreak(format: bool): Text { if format then [NEWLINE] else [] }

  function Indent(format: bool, depth: nat): Text { if format then Tabs(depth) else [] }

  /** The text of v inside depth enclosing arrays and objects. */
  function Render(v: Value, format: bool, depth: nat): (r: Text)
    requires Printable(v)
    ensures |r| >= 1 && r[0] > SPACE
    decreases v
  {
    match v
    case Null => NULL_TEXT
    case False => FALSE_TEXT
    case True => TRUE_TEXT
    case Number(r) => Decimal(r.Floor)
    case String(s) => Quoted(s)
    case Array(items) => [LBRACKET] + RenderItems(items, format, depth + 1) + [RBRACKET]
    case Object(members) =>
      [LBRACE] + LineBreak(format) + RenderMembers(members, format, depth + 1) + Indent(format, depth) + [RBRACE]
  }

  function RenderItems(items: seq<Value>, format: bool, depth: nat): Text
    requires ItemsPrintable(items)
    decreases items
  {
    if items == [] then []
    else if |items| == 1 then Render(items[0], format, depth)
    else Render(items[0], format, depth) + ItemGap(format) + RenderItems(items[1..], format, depth)
  }

  /** One line of an object, without its comma and line break. */
  function RenderMember(m: Member, format: bool, depth: nat): Text
    requires NulFree(m.key) && Printable(m.value)
    decreases m, 1
  {
    Indent(format, depth) + Quoted(m.key) + KeyGap(format) + Render(m.value, format, depth)
  }

  function RenderMembers(members: seq<Member>, format: bool, depth: nat): Text
    requires MembersPrintable(members)
    decreases members
  {
    if members == [] then []
    else
      RenderMember(members[0], format, depth) + (if |members| > 1 then [COMMA] else []) + LineBreak(format)
      + RenderMembers(members[1..], format, depth)
  }

  lemma {:induction false} RenderNulFree(v: Value, format: bool, depth: nat)
    requires Printable(v)
    ensures NulFree(Render(v, format, depth))
    decreases v
  {
    hide RenderItems, RenderMembers;
    match v
    case Array(items) => RenderItemsNulFree(items, format, depth + 1);
    case Object(members) => RenderMembersNulFree(members, format, depth + 1);
    case _ =>
  }

  lemma {:induction false} RenderItemsNulFree(items: seq<Value>, format: bool, depth: nat)
    requires ItemsPrintable(items)
    ensures NulFree(RenderItems(items, format, depth))
    decreases items
  {
    hide Render;
    if items != [] {
      RenderNulFree(items[0], format, depth);
      RenderItemsNulFree(items[1..], format, depth);
    }
  }

  lemma {:induction false} RenderMembersNulFree(members: seq<Member>, format: bool, depth: nat)
    requires MembersPrintable(members)
    ensures NulFree(RenderMembers(members, format, depth))
    decreases members
  {
    hide Render, Quoted;
    if members != [] {
      RenderNulFree(members[0].value, format, depth);
      RenderMembersNulFree(members[1..], format, depth);
    }
  }
}
