/** String literals of 3rdparty/cjson/cJSON.c: escaping on output, and the two passes
    (find the end, then decode) on input. */
module JsonString {
  import opened Bytes

  type Unit = u: int | 0 <= u < 0x10000
  type CodePoint = c: int | 0 <= c <= 0x10FFFF

  // ---------------------------------------------------------------- output

  function HexDigit(d: nat, upper: bool): Byte
    requires d < 16
  {
    if d < 10 then ZERO + d else if upper then 55 + d else 87 + d
  }

  /** Which of four hexadecimal digits are written in upper case. */
  datatype Letters = Letters(a: bool, b: bool, c: bool, d: bool)

  const LOWER := Letters(false, false, false, false)

  /** Four hexadecimal digits, most significant first. */
  function Hex4(u: Unit, upper: Letters): (r: Text)
    ensures |r| == 4
  {
    [HexDigit(u / 4096, upper.a), HexDigit(u / 256 % 16, upper.b),
     HexDigit(u / 16 % 16, upper.c), HexDigit(u % 16, upper.d)]
  }

  /** The escape \uXXXX of a 16-bit code unit. */
  function UnitEscape(u: Unit, upper: Letters): Text
  {
    [BACKSLASH, 117] + Hex4(u, upper)
  }

  /** The letter after the backslash in a two-byte escape, if c has one. */
  function ShortEscape(c: Byte): Option<Byte> {
    if c == QUOTE || c == BACKSLASH then Some(c)
    else if c == 8 then Some(98)
    else if c == 12 then Some(102)
    else if c == NEWLINE then Some(110)
    else if c == RETURN then Some(114)
    else if c == TAB then Some(116)
    else None
  }

  function EscapeByte(c: Byte): (r: Text)
    ensures |r| >= 1 && NulFree(r)
  {
    match ShortEscape(c)
    case Some(e) => [BACKSLASH, e]
    case None => if c < 32 then UnitEscape(c, LOWER) else [c]
  }

  function Escape(s: Text): (r: Text)
    ensures NulFree(r)
  {
    if s == [] then [] else EscapeByte(s[0]) + Escape(s[1..])
  }

  /** A string as the printer writes it. */
  function Quoted(s: Text): (r: Text)
    ensures NulFree(r) && |r| >= 2
  {
    [QUOTE] + Escape(s) + [QUOTE]
  }

  // ---------------------------------------------------------------- first input pass

  /** Offset of the quote that closes a literal whose body starts at j; |s| when there is none. */
  function LiteralEnd(s: Text, j: nat): (e: nat)
    requires j <= |s|
    ensures j <= e <= |s|
    ensures e < |s| ==> s[e] == QUOTE
    decreases |s| - j
  {
    if j == |s| || s[j] == QUOTE then j
    else if s[j] != BACKSLASH then LiteralEnd(s, j + 1)
    else if j + 1 == |s| then |s|
    else LiteralEnd(s, j + 2)
  }

  /** Bytes and escape pairs in t, read from its start: the size estimate of the first pass. */
  function Units(t: Text): nat {
    if t == [] then 0
    else if t[0] == BACKSLASH && |t| > 1 then 1 + Units(t[2..])
    else 1 + Units(t[1..])
  }

  // ---------------------------------------------------------------- second input pass

  function HexValue(c: Byte): (r: Option<nat>)
    ensures r.Some? ==> r.value < 16
  {
    if ZERO <= c <= NINE then Some(c - ZERO)
    else if 65 <= c <= 70 then Some(c - 55)
    else if 97 <= c <= 102 then Some(c - 87)
    else None
  }

  /** Value of the four hexadecimal digits at the start of t; 0 when one of them is not a digit. */
  function ParseHex4(t: Text): Unit
    requires |t| >= 4
  {
    match (HexValue(t[0]), HexValue(t[1]), HexValue(t[2]), HexValue(t[3]))
    case (Some(a), Some(b), Some(c), Some(d)) => ((a * 16 + b) * 16 + c) * 16 + d
    case _ => 0
  }

  predicate IsHighSurrogate(u: int) { 0xD800 <= u <= 0xDBFF }
  predicate IsLowSurrogate(u: int) { 0xDC00 <= u <= 0xDFFF }

  function Combine(high: Unit, low: Unit): (cp: CodePoint)
    ensures 0x10000 <= cp
  {
    0x10000 + high % 1024 * 1024 + low % 1024
  }

  /** UTF-8 of a code point (section 3 of RFC 3629). */
  function Utf8(cp: CodePoint): (r: Text)
    ensures 1 <= |r| <= 4
    ensures cp != 0 ==> NulFree(r)
  {
    if cp < 0x80 then [cp]
    else if cp < 0x800 then [0xC0 + cp / 64, 0x80 + cp % 64]
    else if cp < 0x10000 then [0xE0 + cp / 4096, 0x80 + cp / 64 % 64, 0x80 + cp % 64]
    else [0xF0 + cp / 262144, 0x80 + cp / 4096 % 64, 0x80 + cp / 64 % 64, 0x80 + cp % 64]
  }

  /** The bytes carry the bits of the code point, six in each byte but the first, as table 3-6 of the Unicode standard
      has them. */
  lemma Utf8Exactly(cp: CodePoint)
    ensures var r: seq<int> := Utf8(cp);
            (forall k :: 1 <= k < |r| ==> 0x80 <= r[k] <= 0xBF)
            && (cp < 0x80 ==> r == [cp])
            && (0x80 <= cp < 0x800 ==>
                  |r| == 2 && 0xC0 <= r[0] <= 0xDF && r[0] * 64 + r[1] == cp + (0xC0 * 64 + 0x80))
            && (0x800 <= cp < 0x10000 ==>
                  |r| == 3 && 0xE0 <= r[0] <= 0xEF
                  && (r[0] * 64 + r[1]) * 64 + r[2] == cp + ((0xE0 * 64 + 0x80) * 64 + 0x80))
            && (0x10000 <= cp ==>
                  |r| == 4 && 0xF0 <= r[0] <= 0xF4
                  && ((r[0] * 64 + r[1]) * 64 + r[2]) * 64 + r[3] ==
                     cp + (((0xF0 * 64 + 0x80) * 64 + 0x80) * 64 + 0x80))
  {
    assert cp == cp / 64 * 64 + cp % 64 && cp / 64 == cp / 4096 * 64 + cp / 64 % 64;
    assert cp / 4096 == cp / 262144 * 64 + cp / 4096 % 64;
  }

  /** A surrogate pair stands for ten bits of each half, above the first 0x10000 code points. */
  lemma CombineExactly(high: Unit, low: Unit)
    ensures 0xD800 <= high <= 0xDBFF && 0xDC00 <= low <= 0xDFFF ==>
              Combine(high, low) == 0x10000 + (high - 0xD800) * 0x400 + (low - 0xDC00)
  {
  }

  /** The code point written by the escape or surrogate pair at the start of t, and its length. */
  function Utf16Literal(t: Text): (r: Option<(CodePoint, nat)>)
    ensures r.Some? ==> r.value.1 <= |t|
    ensures r.Some? ==> (r.value.1 == 6 && r.value.0 < 0x10000) || r.value.1 == 12
  {
    if |t| < 6 then None
    else
      var first := ParseHex4(t[2..]);
      if IsLowSurrogate(first) then None
      else if !IsHighSurrogate(first) then Some((first, 6))
      else if |t| < 12 || t[6] != BACKSLASH || t[7] != 117 then None
      else
        var second := ParseHex4(t[8..]);
        if !IsLowSurrogate(second) then None else Some((Combine(first, second), 12))
  }

  /** The byte meant by the letter of a two-byte escape. */
  function LetterValue(c: Byte): Option<Byte> {
    if c == 98 then Some(8)
    else if c == 102 then Some(12)
    else if c == 110 then Some(NEWLINE)
    else if c == 114 then Some(RETURN)
    else if c == 116 then Some(TAB)
    else if c == QUOTE || c == BACKSLASH || c == SLASH then Some(c)
    else None
  }

  datatype Step = Step(out: Text, read: nat)

  /** What one round of the decoding loop writes and how far it reads.  A backslash in the last
      position takes the closing quote of the literal for its letter. */
  function DecodeStep(t: Text): (r: Option<Step>)
    requires t != []
    ensures r.Some? ==> 1 <= r.value.read <= |t|
  {
    if t[0] != BACKSLASH then Some(Step([t[0]], 1))
    else
      var c := if |t| > 1 then t[1] else QUOTE;
      var n := if |t| > 1 then 2 else 1;
      if c == 117 then
        match Utf16Literal(t)
        case None => None
        case Some((cp, len)) => Some(Step(Utf8(cp), len))
      else
        match LetterValue(c)
        case None => None
        case Some(b) => Some(Step([b], n))
  }

  function Prepend(a: Text, r: Option<Text>): Option<Text> {
    match r
    case None => None
    case Some(b) => Some(a + b)
  }

  /** The bytes the decoding loop writes for the body t of a literal; None when it fails. */
  function Decode(t: Text): Option<Text>
    decreases |t|
  {
    if t == [] then Some([])
    else
      match DecodeStep(t)
      case None => None
      case Some(Step(out, n)) => Prepend(out, Decode(t[n..]))
  }

  // ---------------------------------------------------------------- the size estimate

  lemma {:induction false} UnitsDropOne(t: Text)
    requires t != []
    ensures Units(t[1..]) <= Units(t) <= Units(t[1..]) + 1
    decreases |t|
  {
    if t[0] == BACKSLASH && |t| > 1 {
      UnitsDropOne(t[1..]);
      assert t[1..][1..] == t[2..];
    }
  }

  lemma UnitsDropTwo(t: Text)
    requires |t| >= 2
    ensures Units(t) >= Units(t[2..]) + 1
  {
    UnitsDropOne(t[1..]);
    assert t[1..][1..] == t[2..];
  }

  lemma UnitsDropSix(t: Text)
    requires |t| >= 6
    ensures Units(t) >= Units(t[6..]) + 3
  {
    UnitsDropTwo(t);
    UnitsDropTwo(t[2..]);
    UnitsDropTwo(t[2..][2..]);
    assert t[2..][2..] == t[4..] && t[4..][2..] == t[6..];
  }

  lemma StepFitsEstimate(t: Text)
    requires t != [] && DecodeStep(t).Some?
    ensures |DecodeStep(t).value.out| + Units(t[DecodeStep(t).value.read..]) <= Units(t)
  {
    var n := DecodeStep(t).value.read;
    if n == 6 {
      UnitsDropSix(t);
    } else if n == 12 {
      UnitsDropSix(t);
      UnitsDropSix(t[6..]);
      assert t[6..][6..] == t[12..];
    }
  }

  /** Whatever the body holds, decoding it never writes more bytes than the first pass counted. */
  lemma {:induction false} DecodeFitsEstimate(t: Text)
    ensures Decode(t).Some? ==> |Decode(t).value| <= Units(t)
    decreases |t|
  {
    if t != [] && DecodeStep(t).Some? {
      StepFitsEstimate(t);
      DecodeFitsEstimate(t[DecodeStep(t).value.read..]);
    }
  }

  // ---------------------------------------------------------------- round trip of printed strings

  lemma HexDigitValue(d: nat, upper: bool)
    ensures d < 16 ==> HexValue(HexDigit(d, upper)) == Some(d)
  {
  }

  lemma FourDigits(u: Unit)
    ensures ((u / 4096 * 16 + u / 256 % 16) * 16 + u / 16 % 16) * 16 + u % 16 == u
  {
    assert u / 16 * 16 + u % 16 == u && u / 256 * 16 + u / 16 % 16 == u / 16 && u / 4096 * 16 + u / 256 % 16 == u / 256;
  }

  lemma HexRoundTrip(u: Unit, upper: Letters, rest: Text)
    ensures ParseHex4(Hex4(u, upper) + rest) == u
  {
    hide HexDigit, HexValue;
    FourDigits(u);
    var a, b, c, d := u / 4096, u / 256 % 16, u / 16 % 16, u % 16;
    HexDigitValue(a, upper.a);
    HexDigitValue(b, upper.b);
    HexDigitValue(c, upper.c);
    HexDigitValue(d, upper.d);
    var t := Hex4(u, upper) + rest;
    assert t[0] == HexDigit(a, upper.a) && t[1] == HexDigit(b, upper.b);
    assert t[2] == HexDigit(c, upper.c) && t[3] == HexDigit(d, upper.d);
  }

  lemma DecodeOfStep(t: Text, out: Text, rest: Text)
    requires t != [] && DecodeStep(t + rest) == Some(Step(out, |t|))
    ensures Decode(t + rest) == Prepend(out, Decode(rest))
  {
    assert (t + rest)[|t|..] == rest;
  }

  lemma DecodeEscapedByte(c: Byte, rest: Text)
    ensures Decode(EscapeByte(c) + rest) == Prepend([c], Decode(rest))
  {
    var e := EscapeByte(c);
    if ShortEscape(c) == None && c < 32 {
      var t := e + rest;
      assert t[2..] == Hex4(c, LOWER) + rest;
      HexRoundTrip(c, LOWER, rest);
    }
    DecodeOfStep(e, [c], rest);
  }

  lemma {:induction false} DecodeEscape(s: Text)
    ensures Decode(Escape(s)) == Some(s)
  {
    if s != [] {
      DecodeEscape(s[1..]);
      DecodeEscapedByte(s[0], Escape(s[1..]));
      assert [s[0]] + s[1..] == s;
    }
  }

  lemma LiteralEndOfByte(s: Text, j: nat, c: Byte)
    requires At(s, j, EscapeByte(c))
    ensures LiteralEnd(s, j) == LiteralEnd(s, j + |EscapeByte(c)|)
  {
    var e := EscapeByte(c);
    assert s[j + 0] == e[0];
    if |e| > 1 {
      assert s[j + 1] == e[1];
    }
    if |e| == 6 {
      assert s[j + 2] == e[2] && s[j + 3] == e[3] && s[j + 4] == e[4] && s[j + 5] == e[5];
      assert LiteralEnd(s, j) == LiteralEnd(s, j + 2) == LiteralEnd(s, j + 3);
      assert LiteralEnd(s, j + 3) == LiteralEnd(s, j + 4) == LiteralEnd(s, j + 5) == LiteralEnd(s, j + 6);
    }
  }

  lemma LiteralEndAtQuote(s: Text, j: nat)
    ensures j < |s| && s[j] == QUOTE ==> LiteralEnd(s, j) == j
  {
  }

  lemma {:induction false} LiteralEndOfEscape(s: Text, j: nat, k: Text)
    requires At(s, j, Escape(k) + [QUOTE])
    ensures LiteralEnd(s, j) == j + |Escape(k)|
    decreases |k|
  {
    hide LiteralEnd, EscapeByte, At;
    if k == [] {
      AtByte(s, j, Escape(k) + [QUOTE], 0);
      LiteralEndAtQuote(s, j);
    } else {
      var e := EscapeByte(k[0]);
      assert Escape(k) + [QUOTE] == e + (Escape(k[1..]) + [QUOTE]);
      AtConcat(s, j, e, Escape(k[1..]) + [QUOTE]);
      LiteralEndOfByte(s, j, k[0]);
      LiteralEndOfEscape(s, j + |e|, k[1..]);
    }
  }

  // ---------------------------------------------------------------- Unicode escapes

  /** The body of a literal that writes every 16-bit unit as an escape, with any mixture of letter cases. */
  function EscapeUnits(us: seq<Unit>, upper: seq<Letters>): Text
    requires |us| == |upper|
  {
    if us == [] then [] else UnitEscape(us[0], upper[0]) + EscapeUnits(us[1..], upper[1..])
  }

  /** Decoding of UTF-16 (section 3.9 of the Unicode standard); None when a surrogate is unpaired. */
  function Utf16Decode(us: seq<Unit>): (r: Option<seq<CodePoint>>)
  {
    if us == [] then Some([])
    else if IsLowSurrogate(us[0]) then None
    else if !IsHighSurrogate(us[0]) then
      match Utf16Decode(us[1..])
      case None => None
      case Some(cps) => Some([us[0]] + cps)
    else if |us| < 2 || !IsLowSurrogate(us[1]) then None
    else
      match Utf16Decode(us[2..])
      case None => None
      case Some(cps) => Some([Combine(us[0], us[1])] + cps)
  }

  function Utf8All(cps: seq<CodePoint>): Text
  {
    if cps == [] then [] else Utf8(cps[0]) + Utf8All(cps[1..])
  }

  /** A Unicode scalar value: any code point but a surrogate. */
  type Scalar = c: int | 0 <= c < 0xD800 || 0xE000 <= c <= 0x10FFFF

  function UnitsOf(cp: Scalar): seq<Unit> {
    if cp < 0x10000 then [cp as Unit]
    else
      var high: Unit, low: Unit := 0xD800 + (cp - 0x10000) / 1024, 0xDC00 + (cp - 0x10000) % 1024;
      [high, low]
  }

  function Utf16Encode(cps: seq<Scalar>): seq<Unit> {
    if cps == [] then [] else UnitsOf(cps[0]) + Utf16Encode(cps[1..])
  }

  /** Decoding one encoded character in front of others. */
  lemma DecodeCharacter(cp: Scalar, rest: seq<Unit>)
    ensures var cps := Utf16Decode(rest);
            Utf16Decode(UnitsOf(cp) + rest) == if cps.None? then None else Some([cp] + cps.value)
  {
    var us, head := UnitsOf(cp) + rest, UnitsOf(cp);
    assert us[|head|..] == rest && us[0] == head[0];
    if cp >= 0x10000 {
      assert us[1] == head[1];
      SurrogatesCombine(cp);
    }
  }

  lemma SurrogatesCombine(cp: Scalar)
    requires cp >= 0x10000
    ensures IsHighSurrogate(UnitsOf(cp)[0]) && IsLowSurrogate(UnitsOf(cp)[1])
    ensures Combine(UnitsOf(cp)[0], UnitsOf(cp)[1]) == cp
  {
  }

  lemma {:induction false} Utf16RoundTrip(cps: seq<Scalar>)
    ensures Utf16Decode(Utf16Encode(cps)) == Some(cps)
  {
    hide Utf16Decode, UnitsOf;
    if cps == [] {
      NothingDecoded();
    } else {
      Utf16RoundTrip(cps[1..]);
      DecodeCharacter(cps[0], Utf16Encode(cps[1..]));
      assert [cps[0]] + cps[1..] == cps;
    }
  }

  lemma NothingDecoded()
    ensures Utf16Decode([]) == Some([])
  {
  }

  lemma UnitEscapeThen(u: Unit, upper: Letters, rest: Text)
    ensures var t := UnitEscape(u, upper) + rest;
            |t| == 6 + |rest| && t[0] == BACKSLASH && t[1] == 117 && ParseHex4(t[2..]) == u && t[6..] == rest
  {
    hide Hex4, ParseHex4;
    var t := UnitEscape(u, upper) + rest;
    HexRoundTrip(u, upper, rest);
    assert t[2..] == Hex4(u, upper) + rest;
  }

  lemma UnitStep(us: seq<Unit>, upper: seq<Letters>)
    requires us != [] && |us| == |upper|
    ensures var t := EscapeUnits(us, upper);
            DecodeStep(t) ==
            if IsLowSurrogate(us[0]) then None
            else if !IsHighSurrogate(us[0]) then Some(Step(Utf8(us[0]), 6))
            else if |us| < 2 || !IsLowSurrogate(us[1]) then None
            else Some(Step(Utf8(Combine(us[0], us[1])), 12))
  {
    hide UnitEscape, ParseHex4, Utf8, Combine;
    var t, rest := EscapeUnits(us, upper), EscapeUnits(us[1..], upper[1..]);
    UnitEscapeThen(us[0], upper[0], rest);
    if |us| < 2 {
      assert us[1..] == [] && rest == [];
    } else {
      UnitEscapeThen(us[1], upper[1], EscapeUnits(us[1..][1..], upper[1..][1..]));
      assert t[6..] == rest && t[8..] == rest[2..];
    }
  }

  /** Unicode escapes decode to the UTF-8 of the characters they encode in UTF-16, and the literal is
      rejected exactly when a surrogate is unpaired. */
  lemma {:induction false} DecodeUnits(us: seq<Unit>, upper: seq<Letters>)
    requires |us| == |upper|
    ensures var cps := Utf16Decode(us);
            Decode(EscapeUnits(us, upper)) == if cps.None? then None else Some(Utf8All(cps.value))
    decreases |us|
  {
    if us != [] {
      var t := EscapeUnits(us, upper);
      UnitStep(us, upper);
      if !IsLowSurrogate(us[0]) {
        if !IsHighSurrogate(us[0]) {
          assert t[6..] == EscapeUnits(us[1..], upper[1..]);
          DecodeUnits(us[1..], upper[1..]);
        } else if |us| >= 2 && IsLowSurrogate(us[1]) {
          assert us[1..][1..] == us[2..] && upper[1..][1..] == upper[2..];
          assert t[6..] == EscapeUnits(us[1..], upper[1..]);
          assert t[12..] == t[6..][6..] == EscapeUnits(us[2..], upper[2..]);
          DecodeUnits(us[2..], upper[2..]);
        }
      }
    }
  }
}
