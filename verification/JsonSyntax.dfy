/** JSON as texts: what the parser of 3rdparty/cjson/cJSON.c is to accept and what it is to read there, written down
    without the parser, its white-space loop or its offsets. */
module JsonSyntax {
  import opened Bytes
  import opened Decimals
  import opened Json
  import opened JsonString

  // ---------------------------------------------------------------- string literals

  /** The pieces between the quotes: a byte that stands for itself, a two-byte escape, \u with the four bytes behind
      it, hexadecimal digits or not, and a backslash at the very end, which takes the closing quote for its letter. */
  datatype Piece = Itself(b: Byte) | Short(letter: Byte) | Escaped(digits: Text) | Lone

  /** The letters behind a backslash and the bytes they stand for: quote, backslash, slash, b, f, n, r, t. */
  const LETTERS: map<Byte, Byte> :=
    map[34 := 34, 92 := 92, 47 := 47, 98 := 8, 102 := 12, 110 := 10, 114 := 13, 116 := 9]

  predicate IsPiece(ps: seq<Piece>, i: nat)
    requires i < |ps|
  {
    match ps[i]
    case Itself(b) => b != BACKSLASH
    case Short(letter) => letter in LETTERS
    case Escaped(digits) => |digits| == 4
    case Lone => i == |ps| - 1
  }

  ghost predicate ArePieces(ps: seq<Piece>) { forall i: nat :: i < |ps| ==> IsPiece(ps, i) }

  function PieceText(p: Piece): Text {
    match p
    case Itself(b) => [b]
    case Short(letter) => [BACKSLASH, letter]
    case Escaped(digits) => [BACKSLASH, 117] + digits
    case Lone => [BACKSLASH]
  }

  function Body(ps: seq<Piece>, i: nat): Text
    requires i <= |ps|
    decreases |ps| - i
  {
    if i == |ps| then [] else PieceText(ps[i]) + Body(ps, i + 1)
  }

  /** Every backslash is paired with the byte behind it, and no quote stands outside such a pair. */
  predicate Scanned(t: Text) {
    t == []
    || (t[0] == BACKSLASH && |t| > 1 && Scanned(t[2..]))
    || (t[0] != BACKSLASH && t[0] != QUOTE && Scanned(t[1..]))
  }

  /** The 16-bit unit of a piece, 0 for digits that are none; None for other pieces. */
  function UnitOf(p: Piece): Option<Unit> {
    if p.Escaped? && |p.digits| == 4 then Some(ParseHex4(p.digits)) else None
  }

  ghost predicate High(ps: seq<Piece>, i: int) {
    0 <= i < |ps| && UnitOf(ps[i]).Some? && 0xD800 <= UnitOf(ps[i]).value < 0xDC00
  }

  ghost predicate Low(ps: seq<Piece>, i: int) {
    0 <= i < |ps| && UnitOf(ps[i]).Some? && 0xDC00 <= UnitOf(ps[i]).value < 0xE000
  }

  /** A surrogate without its other half beside it. */
  ghost predicate Unpaired(ps: seq<Piece>, i: int) {
    (High(ps, i) && !Low(ps, i + 1)) || (Low(ps, i) && !High(ps, i - 1))
  }

  /** The bytes that piece i stands for; a surrogate pair is counted for its first half. */
  ghost function PieceMeaning(ps: seq<Piece>, i: nat): Text
    requires i < |ps|
  {
    match ps[i]
    case Itself(b) => [b]
    case Short(letter) => if letter in LETTERS then [LETTERS[letter]] else []
    case Escaped(_) =>
      if High(ps, i) && Low(ps, i + 1) then Utf8(Combine(UnitOf(ps[i]).value, UnitOf(ps[i + 1]).value))
      else if Low(ps, i) || UnitOf(ps[i]) == None then []
      else Utf8(UnitOf(ps[i]).value)
    case Lone => [QUOTE]
  }

  ghost function Meaning(ps: seq<Piece>, i: nat): Text
    requires i <= |ps|
    decreases |ps| - i
  {
    if i == |ps| then [] else PieceMeaning(ps, i) + Meaning(ps, i + 1)
  }

  /** A literal that is accepted. */
  ghost predicate IsLiteral(ps: seq<Piece>) {
    ArePieces(ps) && Scanned(Body(ps, 0)) && forall k :: 0 <= k < |ps| ==> !Unpaired(ps, k)
  }

  function LiteralText(ps: seq<Piece>): Text { [QUOTE] + (Body(ps, 0) + [QUOTE]) }

  /** Strings end at their first NUL. */
  ghost function LiteralValue(ps: seq<Piece>): Text { CString(Meaning(ps, 0)) }

  // ---------------------------------------------------------------- numbers

  datatype Exponent = NoExponent | Exponent(letter: Byte, sign: Text, digits: Text)

  /** A number: a minus or none, digits, a point or none, digits behind it, and an exponent or none. */
  datatype Numeral = Numeral(minus: bool, whole: Text, point: bool, fraction: Text, exponent: Exponent)

  function ExponentText(e: Exponent): Text {
    if e.NoExponent? then [] else [e.letter] + (e.sign + e.digits)
  }

  function NumeralText(n: Numeral): Text {
    (if n.minus then [MINUS] else [])
    + (n.whole + ((if n.point then [DOT] else []) + (n.fraction + ExponentText(n.exponent))))
  }

  predicate IsExponent(e: Exponent) {
    e.NoExponent?
    || ((e.letter == 69 || e.letter == 101) && (e.sign == [] || e.sign == [PLUS] || e.sign == [MINUS])
        && e.digits != [] && AllDigits(e.digits))
  }

  /** There is a digit before or behind the point, before it if there is no minus; 63 bytes are read at most. */
  predicate IsNumeral(n: Numeral) {
    AllDigits(n.whole) && AllDigits(n.fraction) && (n.point || n.fraction == []) && n.whole + n.fraction != []
    && (n.minus || n.whole != []) && IsExponent(n.exponent) && |NumeralText(n)| <= 63
  }

  function DigitValue(c: int): int { c - 48 }

  /** The digits before the point, each worth ten times the one behind it. */
  function WholeValue(digits: Text): int {
    if digits == [] then 0 else DigitValue(digits[0]) * Pow10(|digits| - 1) + WholeValue(digits[1..])
  }

  /** The digits behind the point, each worth a tenth of the one before it. */
  function FractionValue(digits: Text): real {
    if digits == [] then 0.0 else (DigitValue(digits[0]) as real + FractionValue(digits[1..])) / 10.0
  }

  function TenTo(e: int): real
    decreases if e < 0 then -e else e
  {
    if e == 0 then 1.0 else if e > 0 then 10.0 * TenTo(e - 1) else TenTo(e + 1) / 10.0
  }

  function ExponentValue(e: Exponent): int {
    if e.NoExponent? then 0 else if e.sign == [MINUS] then -WholeValue(e.digits) else WholeValue(e.digits)
  }

  function Magnitude(n: Numeral): real {
    (WholeValue(n.whole) as real + FractionValue(n.fraction)) * TenTo(ExponentValue(n.exponent))
  }

  function NumeralValue(n: Numeral): real { if n.minus then -Magnitude(n) else Magnitude(n) }

  // ---------------------------------------------------------------- white space and comments

  /** White space is any byte up to the space. Comments run to the end of the line, or from slash and star to the
      next star and slash; the star may be the same. */
  datatype Chunk = Space(b: Byte) | Line(body: Text) | Block(inner: Text)

  type Gap = seq<Chunk>

  function ChunkText(c: Chunk): Text {
    match c
    case Space(b) => [b]
    case Line(body) => [SLASH, SLASH] + (body + [NEWLINE])
    case Block(inner) => [SLASH] + (inner + [STAR, SLASH])
  }

  function GapText(g: Gap): Text {
    if g == [] then [] else ChunkText(g[0]) + GapText(g[1..])
  }

  predicate Ends(t: Text, k: nat) { k + 1 < |t| && t[k] == STAR && t[k + 1] == SLASH }

  predicate IsChunk(c: Chunk, comments: bool) {
    match c
    case Space(b) => b <= 32
    case Line(body) => comments && NEWLINE !in body
    case Block(inner) =>
      comments && (inner == [] || inner[0] == STAR) && forall k :: 0 <= k < |inner| ==> !Ends(inner + [STAR], k)
  }

  /** JSON has no comments in its gaps. */
  predicate IsGap(g: Gap, comments: bool) {
    g == [] || (IsChunk(g[0], comments) && IsGap(g[1..], comments))
  }

  // ---------------------------------------------------------------- values

  /** A value as it is written; `inner` is what stands between the brackets of an empty array or object. */
  datatype Doc =
    | NullDoc
    | FalseDoc
    | TrueDoc
    | NumberDoc(numeral: Numeral)
    | StringDoc(pieces: seq<Piece>)
    | ArrayDoc(inner: Gap, items: seq<ItemDoc>)
    | ObjectDoc(inner: Gap, members: seq<MemberDoc>)

  datatype ItemDoc = ItemDoc(before: Gap, value: Doc, after: Gap)

  datatype MemberDoc =
    MemberDoc(before: Gap, key: seq<Piece>, afterKey: Gap, beforeValue: Gap, value: Doc, after: Gap)

  function DocText(d: Doc): Text {
    match d
    case NullDoc => [110, 117, 108, 108]
    case FalseDoc => [102, 97, 108, 115, 101]
    case TrueDoc => [116, 114, 117, 101]
    case NumberDoc(n) => NumeralText(n)
    case StringDoc(ps) => LiteralText(ps)
    case ArrayDoc(inner, items) =>
      [LBRACKET] + if items == [] then GapText(inner) + [RBRACKET] else ItemsText(items)
    case ObjectDoc(inner, members) =>
      [LBRACE] + if members == [] then GapText(inner) + [RBRACE] else MembersText(members)
  }

  function ItemText(x: ItemDoc): Text {
    GapText(x.before) + (DocText(x.value) + GapText(x.after))
  }

  /** The elements with commas between them and the closing bracket behind them. */
  function ItemsText(items: seq<ItemDoc>): Text {
    if items == [] then []
    else ItemText(items[0]) + if |items| == 1 then [RBRACKET] else [COMMA] + ItemsText(items[1..])
  }

  function MemberText(m: MemberDoc): Text {
    GapText(m.before) + (LiteralText(m.key) + (GapText(m.afterKey) + ([COLON]
    + (GapText(m.beforeValue) + (DocText(m.value) + GapText(m.after))))))
  }

  function MembersText(members: seq<MemberDoc>): Text {
    if members == [] then []
    else MemberText(members[0]) + if |members| == 1 then [RBRACE] else [COMMA] + MembersText(members[1..])
  }

  ghost predicate IsDoc(d: Doc, comments: bool) {
    match d
    case NumberDoc(n) => IsNumeral(n)
    case StringDoc(ps) => IsLiteral(ps)
    case ArrayDoc(inner, items) => IsGap(inner, comments) && AreItems(items, comments)
    case ObjectDoc(inner, members) => IsGap(inner, comments) && AreMembers(members, comments)
    case _ => true
  }

  ghost predicate IsItem(x: ItemDoc, comments: bool) {
    IsGap(x.before, comments) && IsDoc(x.value, comments) && IsGap(x.after, comments)
  }

  ghost predicate AreItems(items: seq<ItemDoc>, comments: bool) {
    items == [] || (IsItem(items[0], comments) && AreItems(items[1..], comments))
  }

  ghost predicate IsMember(m: MemberDoc, comments: bool) {
    IsGap(m.before, comments) && IsLiteral(m.key) && IsGap(m.afterKey, comments) && IsGap(m.beforeValue, comments)
    && IsDoc(m.value, comments) && IsGap(m.after, comments)
  }

  ghost predicate AreMembers(members: seq<MemberDoc>, comments: bool) {
    members == [] || (IsMember(members[0], comments) && AreMembers(members[1..], comments))
  }

  /** The value that is written. */
  ghost function DocValue(d: Doc): Value {
    match d
    case NullDoc => Null
    case FalseDoc => False
    case TrueDoc => True
    case NumberDoc(n) => Number(NumeralValue(n))
    case StringDoc(ps) => String(LiteralValue(ps))
    case ArrayDoc(_, items) => Array(ItemValues(items))
    case ObjectDoc(_, members) => Object(MemberValues(members))
  }

  ghost function ItemValues(items: seq<ItemDoc>): seq<Value> {
    if items == [] then [] else [DocValue(items[0].value)] + ItemValues(items[1..])
  }

  ghost function MemberValues(members: seq<MemberDoc>): seq<Member> {
    if members == [] then []
    else [Member(LiteralValue(members[0].key), DocValue(members[0].value))] + MemberValues(members[1..])
  }

  // ---------------------------------------------------------------- documents

  /** A UTF-8 byte order mark or none, and a value with gaps around it. */
  datatype Document = Document(mark: bool, before: Gap, value: Doc, after: Gap)

  /** The text up to the end of the value. */
  function Opening(d: Document): Text {
    (if d.mark then [0xEF, 0xBB, 0xBF] else []) + (GapText(d.before) + DocText(d.value))
  }

  function DocumentText(d: Document): Text { Opening(d) + GapText(d.after) }

  ghost predicate IsDocument(d: Document, comments: bool) {
    IsGap(d.before, comments) && IsDoc(d.value, comments) && IsGap(d.after, comments)
  }
}
