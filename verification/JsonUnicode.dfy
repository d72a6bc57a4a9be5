/** Whole string literals as the parser of 3rdparty/cjson/cJSON.c reads them: those made of Unicode escapes, and
    those of any pieces. */
module JsonUnicode {
  import opened Bytes
  import opened JsonString
  import opened JsonGrammar
  import opened JsonSyntax

  /** The literal that writes every 16-bit unit as an escape, each digit in either case. */
  function UnitsLiteral(us: seq<Unit>, upper: seq<Letters>): Text
    requires |us| == |upper|
  {
    [QUOTE] + (EscapeUnits(us, upper) + [QUOTE])
  }

  lemma HexIsPlain(u: Unit, upper: Letters, k: nat)
    ensures k < 4 ==> Hex4(u, upper)[k] != QUOTE && Hex4(u, upper)[k] != BACKSLASH && Hex4(u, upper)[k] != NUL
  {
  }

  lemma LiteralEndOfUnit(s: Text, j: nat, u: Unit, upper: Letters)
    requires At(s, j, UnitEscape(u, upper))
    ensures LiteralEnd(s, j) == LiteralEnd(s, j + 6)
  {
    hide Hex4, LiteralEnd;
    var e := UnitEscape(u, upper);
    assert s[j + 0] == e[0] && s[j + 1] == e[1] && s[j + 2] == e[2];
    assert s[j + 3] == e[3] && s[j + 4] == e[4] && s[j + 5] == e[5];
    HexIsPlain(u, upper, 0);
    HexIsPlain(u, upper, 1);
    HexIsPlain(u, upper, 2);
    HexIsPlain(u, upper, 3);
    assert e[2] == Hex4(u, upper)[0] && e[3] == Hex4(u, upper)[1];
    assert e[4] == Hex4(u, upper)[2] && e[5] == Hex4(u, upper)[3];
    ScanPair(s, j);
    ScanByte(s, j + 2);
    ScanByte(s, j + 3);
    ScanByte(s, j + 4);
    ScanByte(s, j + 5);
  }

  lemma ScanPair(s: Text, j: nat)
    ensures j + 1 < |s| && s[j] == BACKSLASH ==> LiteralEnd(s, j) == LiteralEnd(s, j + 2)
  {
  }

  lemma ScanByte(s: Text, j: nat)
    ensures j < |s| && s[j] != BACKSLASH && s[j] != QUOTE ==> LiteralEnd(s, j) == LiteralEnd(s, j + 1)
  {
  }

  /** The scanning pass runs over all the escapes to the closing quote. */
  lemma {:induction false} LiteralEndOfUnits(s: Text, j: nat, us: seq<Unit>, upper: seq<Letters>)
    requires |us| == |upper| && At(s, j, EscapeUnits(us, upper) + [QUOTE])
    ensures LiteralEnd(s, j) == j + 6 * |us| && |EscapeUnits(us, upper)| == 6 * |us|
    decreases |us|
  {
    hide UnitEscape, LiteralEnd;
    if us == [] {
      assert s[j + 0] == (EscapeUnits(us, upper) + [QUOTE])[0];
      LiteralEndAtQuote(s, j);
    } else {
      var e, rest := UnitEscape(us[0], upper[0]), EscapeUnits(us[1..], upper[1..]);
      UnitEscapeThen(us[0], upper[0], []);
      assert EscapeUnits(us, upper) + [QUOTE] == e + (rest + [QUOTE]);
      AtConcat(s, j, e, rest + [QUOTE]);
      LiteralEndOfUnit(s, j, us[0], upper[0]);
      LiteralEndOfUnits(s, j + 6, us[1..], upper[1..]);
    }
  }

  /** A text between two quotes. */
  lemma QuotedPlace(s: Text, i: nat, body: Text)
    requires At(s, i, [QUOTE] + (body + [QUOTE]))
    ensures i + 1 + |body| < |s| && s[i] == QUOTE && s[i + 1..i + 1 + |body|] == body && At(s, i + 1, body + [QUOTE])
  {
    hide At;
    AtConcat(s, i, [QUOTE], body + [QUOTE]);
    AtByte(s, i, [QUOTE], 0);
    AtConcat(s, i + 1, body, [QUOTE]);
    AtSlice(s, i + 1, body);
    AtByte(s, i + 1 + |body|, [QUOTE], 0);
  }

  /** Where the parts of the literal stand. */
  lemma UnitsPlace(s: Text, i: nat, us: seq<Unit>, upper: seq<Letters>)
    requires |us| == |upper| && At(s, i, UnitsLiteral(us, upper))
    ensures i + 1 + 6 * |us| < |s| && s[i] == QUOTE && LiteralEnd(s, i + 1) == i + 1 + 6 * |us|
    ensures s[i + 1..i + 1 + 6 * |us|] == EscapeUnits(us, upper)
  {
    hide LiteralEnd, EscapeUnits, At;
    QuotedPlace(s, i, EscapeUnits(us, upper));
    LiteralEndOfUnits(s, i + 1, us, upper);
  }

  /** Wherever it stands, a literal of escapes is read as the UTF-8 of the characters they encode, cut at a NUL
      as every C string is, and rejected exactly when a surrogate is unpaired. */
  lemma ParseUnits(s: Text, i: nat, us: seq<Unit>, upper: seq<Letters>)
    requires Terminated(s) && |us| == |upper| && At(s, i, UnitsLiteral(us, upper))
    ensures i < |s| && ParseString(s, i) ==
            var cps := Utf16Decode(us);
            if cps.None? then Rejected else Parsed(CString(Utf8All(cps.value)), i + 6 * |us| + 2)
  {
    hide LiteralEnd, Decode, EscapeUnits, CString, Utf16Decode, At, UnitsLiteral, NulFree, Utf8All;
    UnitsPlace(s, i, us, upper);
    DecodeUnits(us, upper);
  }

  lemma {:induction false} Utf8NulFree(cps: seq<CodePoint>)
    requires forall k :: 0 <= k < |cps| ==> cps[k] != 0
    ensures NulFree(Utf8All(cps))
  {
    hide Utf8;
    if cps != [] {
      Utf8NulFree(cps[1..]);
    }
  }

  /** Every sequence of Unicode scalar values but NUL, written as \uXXXX escapes and surrogate pairs, is read
      as its UTF-8 encoding. */
  lemma ParseScalars(s: Text, i: nat, cps: seq<Scalar>, upper: seq<Letters>)
    requires Terminated(s) && |upper| == |Utf16Encode(cps)| && At(s, i, UnitsLiteral(Utf16Encode(cps), upper))
    requires forall k :: 0 <= k < |cps| ==> cps[k] != 0
    ensures i < |s| && ParseString(s, i) == Parsed(Utf8All(cps), i + 6 * |Utf16Encode(cps)| + 2)
  {
    hide Utf8All, Utf16Encode, Utf16Decode, UnitsLiteral, CString, ParseString;
    Utf16RoundTrip(cps);
    ParseUnits(s, i, Utf16Encode(cps), upper);
    Utf8NulFree(cps);
    CStringOfNulFree(Utf8All(cps));
  }

  // ---------------------------------------------------------------- any literal

  /** What decoding from piece i on should give. */
  ghost function Expected(ps: seq<Piece>, i: nat): Option<Text>
    requires i <= |ps|
  {
    if exists k :: i <= k < |ps| && Unpaired(ps, k) then None else Some(Meaning(ps, i))
  }

  lemma ExpectedStep(ps: seq<Piece>, i: nat)
    requires i < |ps| && !Unpaired(ps, i)
    ensures Expected(ps, i) == Prepend(PieceMeaning(ps, i), Expected(ps, i + 1))
  {
    hide Unpaired, PieceMeaning;
  }

  lemma EscapedStart(digits: Text, rest: Text)
    requires |digits| == 4
    ensures var t := ([BACKSLASH, 117] + digits) + rest;
            |t| == 6 + |rest| && t[0] == BACKSLASH && t[1] == 117 && ParseHex4(t[2..]) == ParseHex4(digits)
            && t[6..] == rest
  {
    hide HexValue;
    var t := ([BACKSLASH, 117] + digits) + rest;
    assert t[2..] == digits + rest;
  }

  lemma LetterTable(c: Byte)
    ensures LetterValue(c) == if c in LETTERS then Some(LETTERS[c]) else None
  {
  }

  /** A byte, a two-byte escape or a lone backslash is decoded on its own. */
  lemma DecodeSimple(ps: seq<Piece>, i: nat)
    requires i < |ps| && IsPiece(ps, i) && !ps[i].Escaped?
    ensures Decode(Body(ps, i)) == Prepend(PieceMeaning(ps, i), Decode(Body(ps, i + 1)))
  {
    hide LetterValue;
    match ps[i]
    case Itself(b) => DecodeOfStep([b], [b], Body(ps, i + 1));
    case Short(letter) =>
      LetterTable(letter);
      DecodeOfStep([BACKSLASH, letter], [LETTERS[letter]], Body(ps, i + 1));
    case Lone =>
      LetterTable(QUOTE);
      DecodeOfStep([BACKSLASH], [QUOTE], Body(ps, i + 1));
  }

  /** An escape that is no surrogate is decoded on its own; a low surrogate in front is refused. */
  lemma DecodeEscaped(digits: Text, rest: Text)
    requires |digits| == 4 && !IsHighSurrogate(ParseHex4(digits))
    ensures Decode(([BACKSLASH, 117] + digits) + rest) ==
            if IsLowSurrogate(ParseHex4(digits)) then None else Prepend(Utf8(ParseHex4(digits)), Decode(rest))
  {
    hide ParseHex4, Utf8;
    EscapedStart(digits, rest);
  }

  lemma DecodePair(high: Text, low: Text, rest: Text)
    requires |high| == |low| == 4 && IsHighSurrogate(ParseHex4(high))
    ensures Decode(([BACKSLASH, 117] + high) + (([BACKSLASH, 117] + low) + rest)) ==
            if IsLowSurrogate(ParseHex4(low)) then Prepend(Utf8(Combine(ParseHex4(high), ParseHex4(low))), Decode(rest))
            else None
  {
    hide ParseHex4, Utf8, Combine;
    var second := ([BACKSLASH, 117] + low) + rest;
    var t := ([BACKSLASH, 117] + high) + second;
    EscapedStart(high, second);
    EscapedStart(low, rest);
    assert t[6] == second[0] && t[7] == second[1] && t[8..] == second[2..] && t[12..] == second[6..];
  }

  /** A high surrogate is refused if no escape stands behind it. */
  lemma DecodeHalf(high: Text, rest: Text)
    requires |high| == 4 && IsHighSurrogate(ParseHex4(high))
    requires |rest| < 2 || rest[0] != BACKSLASH || rest[1] != 117
    ensures Decode(([BACKSLASH, 117] + high) + rest) == None
  {
    hide ParseHex4, Utf8, Combine;
    EscapedStart(high, rest);
    var t := ([BACKSLASH, 117] + high) + rest;
    assert |rest| >= 2 ==> t[6] == rest[0] && t[7] == rest[1];
  }

  /** What follows a piece that is no escape does not look like one. */
  lemma NoEscapeStarts(ps: seq<Piece>, i: nat)
    requires i <= |ps| && (i < |ps| ==> !ps[i].Escaped? && IsPiece(ps, i))
    ensures var t := Body(ps, i); |t| < 2 || t[0] != BACKSLASH || t[1] != 117
  {
  }

  lemma PieceStep(ps: seq<Piece>, i: nat)
    requires ArePieces(ps) && i < |ps| && !(Low(ps, i) && High(ps, i - 1))
    ensures Unpaired(ps, i) ==> Decode(Body(ps, i)) == None
    ensures !Unpaired(ps, i) && !High(ps, i) ==>
              Decode(Body(ps, i)) == Prepend(PieceMeaning(ps, i), Decode(Body(ps, i + 1)))
    ensures !Unpaired(ps, i) && High(ps, i) ==>
              Decode(Body(ps, i)) == Prepend(PieceMeaning(ps, i), Decode(Body(ps, i + 2)))
  {
    hide Decode, ParseHex4, Utf8, Combine;
    assert IsPiece(ps, i);
    var rest := Body(ps, i + 1);
    if !ps[i].Escaped? {
      DecodeSimple(ps, i);
    } else if !High(ps, i) {
      DecodeEscaped(ps[i].digits, rest);
    } else if i + 1 < |ps| && ps[i + 1].Escaped? {
      assert IsPiece(ps, i + 1);
      DecodePair(ps[i].digits, ps[i + 1].digits, Body(ps, i + 2));
    } else {
      assert i + 1 < |ps| ==> IsPiece(ps, i + 1);
      NoEscapeStarts(ps, i + 1);
      DecodeHalf(ps[i].digits, rest);
    }
  }

  /** Decoding from a piece on that does not continue a pair. */
  lemma {:induction false} DecodePieces(ps: seq<Piece>, i: nat)
    requires ArePieces(ps) && i <= |ps| && !(Low(ps, i) && High(ps, i - 1))
    ensures Decode(Body(ps, i)) == Expected(ps, i)
    decreases |ps| - i
  {
    hide Decode, Body, PieceMeaning, Expected, High, Low, ArePieces;
    if i == |ps| {
      ExpectedEnd(ps);
    } else {
      PieceStep(ps, i);
      ExpectedFrom(ps, i);
      if !Unpaired(ps, i) {
        DecodePieces(ps, if High(ps, i) then i + 2 else i + 1);
      }
    }
  }

  /** What is expected at a piece that does not continue a pair, from what is expected behind it or its pair. */
  lemma ExpectedFrom(ps: seq<Piece>, i: nat)
    requires i < |ps|
    ensures Unpaired(ps, i) ==> Expected(ps, i) == None
    ensures !Unpaired(ps, i) ==>
              var next := if High(ps, i) then i + 2 else i + 1;
              next <= |ps| && !(Low(ps, next) && High(ps, next - 1))
              && Expected(ps, i) == Prepend(PieceMeaning(ps, i), Expected(ps, next))
  {
    hide PieceMeaning, Expected;
    if Unpaired(ps, i) {
      ExpectedNone(ps, i);
    } else {
      ExpectedStep(ps, i);
      if High(ps, i) {
        ExpectedStep(ps, i + 1);
        SecondHalf(ps, i + 1);
      }
    }
  }

  lemma ExpectedEnd(ps: seq<Piece>)
    ensures Decode(Body(ps, |ps|)) == Expected(ps, |ps|)
  {
  }

  lemma ExpectedNone(ps: seq<Piece>, i: nat)
    ensures i < |ps| && Unpaired(ps, i) ==> Expected(ps, i) == None
  {
  }

  lemma SecondHalf(ps: seq<Piece>, i: nat)
    requires i < |ps| && Low(ps, i)
    ensures !High(ps, i)
    ensures High(ps, i - 1) ==> Prepend(PieceMeaning(ps, i), Expected(ps, i + 1)) == Expected(ps, i + 1)
  {
    hide Expected;
    if High(ps, i - 1) && Expected(ps, i + 1).Some? {
      assert [] + Expected(ps, i + 1).value == Expected(ps, i + 1).value;
    }
  }

  /** The scanning pass runs over a body to the closing quote. */
  lemma {:induction false} ScansBody(s: Text, j: nat, t: Text)
    requires At(s, j, t + [QUOTE]) && Scanned(t)
    ensures LiteralEnd(s, j) == j + |t|
    decreases |t|
  {
    hide LiteralEnd, At;
    AtByte(s, j, t + [QUOTE], 0);
    if t == [] {
      LiteralEndAtQuote(s, j);
    } else {
      var n := if t[0] == BACKSLASH then 2 else 1;
      assert t + [QUOTE] == t[..n] + (t[n..] + [QUOTE]);
      AtConcat(s, j, t[..n], t[n..] + [QUOTE]);
      AtByte(s, j, t[..n], n - 1);
      ScanPair(s, j);
      ScanByte(s, j);
      ScansBody(s, j + n, t[n..]);
    }
  }

  /** What it runs over is a body. */
  lemma {:induction false} ScannedBody(s: Text, j: nat)
    requires j <= |s| && LiteralEnd(s, j) < |s|
    ensures Scanned(s[j..LiteralEnd(s, j)])
    decreases |s| - j
  {
    var e := LiteralEnd(s, j);
    if s[j] != QUOTE {
      var n := if s[j] == BACKSLASH then 2 else 1;
      ScannedBody(s, j + n);
      assert s[j..e][n..] == s[j + n..e];
    }
  }

  /** Any literal of bytes, two-byte escapes and \u escapes is read, wherever it stands, as the bytes its pieces
      stand for, cut at a NUL, and is rejected exactly when a surrogate stands without its other half. */
  lemma ParsePieces(s: Text, i: nat, ps: seq<Piece>)
    requires Terminated(s) && ArePieces(ps) && Scanned(Body(ps, 0)) && At(s, i, LiteralText(ps))
    ensures i < |s| && ParseString(s, i) ==
            if exists k :: 0 <= k < |ps| && Unpaired(ps, k) then Rejected
            else Parsed(LiteralValue(ps), i + |LiteralText(ps)|)
  {
    hide LiteralEnd, Decode, CString, At, NulFree, Body, Meaning, Unpaired, Scanned, ArePieces;
    QuotedPlace(s, i, Body(ps, 0));
    ScansBody(s, i + 1, Body(ps, 0));
    DecodePieces(ps, 0);
  }

  lemma {:induction false} BodyBehind(qs: seq<Piece>, ps: seq<Piece>, i: nat)
    requires i <= |ps| && qs != [] && qs[1..] == ps
    ensures Body(qs, i + 1) == Body(ps, i)
    decreases |ps| - i
  {
    hide PieceText, Body;
    BodyStep(qs, i + 1);
    BodyStep(ps, i);
    if i < |ps| {
      assert qs[i + 1] == qs[1..][i] == ps[i];
      BodyBehind(qs, ps, i + 1);
    }
  }

  lemma BodyStep(ps: seq<Piece>, i: nat)
    requires i <= |ps|
    ensures Body(ps, i) == if i == |ps| then [] else PieceText(ps[i]) + Body(ps, i + 1)
  {
  }

  lemma PiecesBehind(p: Piece, ps: seq<Piece>)
    requires ArePieces(ps) && IsPiece([p], 0) && (p.Lone? ==> ps == [])
    ensures ArePieces([p] + ps) && Body([p] + ps, 0) == PieceText(p) + Body(ps, 0)
  {
    BodyBehind([p] + ps, ps, 0);
    forall k: nat | k < |[p] + ps| ensures IsPiece([p] + ps, k) {
      assert k > 0 ==> IsPiece(ps, k - 1);
    }
  }

  /** The first piece of a body that is decoded: at least as much as one round reads, or the first half of a pair. */
  lemma FirstPiece(t: Text) returns (p: Piece)
    requires t != [] && DecodeStep(t).Some?
    ensures IsPiece([p], 0) && |PieceText(p)| <= |t| && t == PieceText(p) + t[|PieceText(p)|..]
    ensures p.Lone? ==> |t| == 1
    ensures DecodeStep(t).value.read == |PieceText(p)|
            || (DecodeStep(t).value.read == 12 && |t| >= 12 && |PieceText(p)| == 6 && t[6] == BACKSLASH && t[7] == 117)
  {
    hide ParseHex4, Utf8, Combine;
    if t[0] != BACKSLASH {
      p := Itself(t[0]);
    } else if |t| == 1 {
      p := Lone;
    } else if t[1] == 117 {
      p := Escaped(t[2..6]);
    } else {
      LetterTable(t[1]);
      p := Short(t[1]);
    }
  }

  /** Every body that is decoded is one of pieces. */
  lemma {:induction false} PiecesOf(t: Text) returns (ps: seq<Piece>)
    requires Decode(t).Some?
    ensures ArePieces(ps) && Body(ps, 0) == t
    decreases |t|
  {
    hide DecodeStep, ArePieces, Body, PieceText;
    ps := [];
    if t == [] {
      NoPieces();
    } else {
      var p := FirstPiece(t);
      var n := DecodeStep(t).value.read;
      ps := PiecesOf(t[n..]);
      if n == 12 && |PieceText(p)| == 6 {
        var q := Escaped(t[8..12]);
        SecondEscape(t);
        PiecesBehind(q, ps);
        ps := [q] + ps;
      }
      NoPieces();
      assert p.Lone? ==> t[n..] == [];
      LonePieces(ps);
      PiecesBehind(p, ps);
      ps := [p] + ps;
    }
  }

  lemma SecondEscape(t: Text)
    requires |t| >= 12 && t[6] == BACKSLASH && t[7] == 117
    ensures IsPiece([Escaped(t[8..12])], 0) && t[6..] == PieceText(Escaped(t[8..12])) + t[12..]
  {
    assert t[6..12] == [BACKSLASH, 117] + t[8..12];
    assert t[6..] == t[6..12] + t[12..];
  }

  lemma NoPieces()
    ensures ArePieces([]) && Body([], 0) == []
  {
  }

  lemma LonePieces(ps: seq<Piece>)
    requires ArePieces(ps)
    ensures Body(ps, 0) == [] ==> ps == []
  {
    if ps != [] {
      assert IsPiece(ps, 0);
    }
  }

  /** Every literal that is read is one of pieces without an unpaired surrogate, read as what they stand for. */
  lemma LiteralRead(s: Text, i: nat) returns (ps: seq<Piece>)
    requires Terminated(s) && i < |s| && ParseString(s, i).Parsed?
    ensures IsLiteral(ps) && At(s, i, LiteralText(ps))
    ensures ParseString(s, i) == Parsed(LiteralValue(ps), i + |LiteralText(ps)|)
  {
    hide LiteralEnd, Decode, CString, NulFree, Body, Meaning, Unpaired, Scanned, ArePieces;
    var e := LiteralEnd(s, i + 1);
    ScannedBody(s, i + 1);
    ps := PiecesOf(s[i + 1..e]);
    assert At(s, i, LiteralText(ps));
    hide At;
    ParsePieces(s, i, ps);
  }

  /** Four bytes that are no digits are not refused: they stand for a NUL. */
  lemma MalformedIsNul(digits: Text, rest: Text)
    requires |digits| == 4 && exists k :: 0 <= k < 4 && HexValue(digits[k]) == None
    ensures Decode(([BACKSLASH, 117] + digits) + rest) == Prepend([NUL], Decode(rest))
  {
    hide HexValue;
    assert ParseHex4(digits) == 0;
    DecodeEscaped(digits, rest);
  }

  /** The literal "\uZZZZ" is read as the empty string. */
  lemma MalformedAccepted(s: Text)
    requires s == [QUOTE, BACKSLASH, 117, 90, 90, 90, 90, QUOTE, NUL]
    ensures Terminated(s) && ParseString(s, 0) == Parsed([], 8)
  {
    var ps := [Escaped([90, 90, 90, 90])];
    assert Body(ps, 1) == [] && Body(ps, 0) == [BACKSLASH, 117, 90, 90, 90, 90];
    assert Scanned([]) && Scanned([90]) && Scanned([90, 90]) && Scanned([90, 90, 90]) && Scanned([90, 90, 90, 90]);
    assert LiteralText(ps) == s[..8];
    assert Meaning(ps, 1) == [] && Meaning(ps, 0) == [NUL];
    assert !Unpaired(ps, 0);
    ParsePieces(s, 0, ps);
  }
}
