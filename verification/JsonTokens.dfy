/** What cJSON_Minify of 3rdparty/cjson/cJSON.c leaves of any text, token by token, and of its own result. */
module JsonTokens {
  import opened Bytes
  import opened JsonString
  import opened JsonMinify
  import opened JsonSyntax

  // ---------------------------------------------------------------- tokens

  /** What minifying tells apart: a blank, a comment to the end of the line, a comment up to star and slash, a string
      literal, and any other byte. */
  datatype Token =
    | Blank(b: Byte)
    | LineToken(body: Text)
    | BlockToken(inner: Text)
    | Literal(body: Text)
    | Other(b: Byte)

  function TokenText(t: Token): Text {
    match t
    case Blank(b) => [b]
    case LineToken(body) => [SLASH, SLASH] + body
    case BlockToken(inner) => [SLASH] + (inner + [STAR, SLASH])
    case Literal(body) => [QUOTE] + (body + [QUOTE])
    case Other(b) => [b]
  }

  /** Only literals and other bytes are kept. */
  function Kept(t: Token): Text { if t.Literal? || t.Other? then TokenText(t) else [] }

  /** t is a token in front of rest. */
  predicate IsToken(t: Token, rest: Text) {
    match t
    case Blank(b) => b in {32, 9, 13, 10}
    case LineToken(body) => 10 !in body && (rest == [] || rest[0] == 10)
    case BlockToken(inner) =>
      (inner == [] || inner[0] == STAR) && forall k :: 0 <= k < |inner| ==> !Ends(inner + [STAR], k)
    case Literal(body) => Scanned(body)
    case Other(b) => b !in {32, 9, 13, 10, 34} && (b == 47 ==> rest == [] || rest[0] !in {47, 42})
  }

  function TokensText(ts: seq<Token>): Text {
    if ts == [] then [] else TokenText(ts[0]) + TokensText(ts[1..])
  }

  function KeptText(ts: seq<Token>): Text {
    if ts == [] then [] else Kept(ts[0]) + KeptText(ts[1..])
  }

  predicate AreTokens(ts: seq<Token>) {
    ts == [] || (IsToken(ts[0], TokensText(ts[1..])) && AreTokens(ts[1..]))
  }

  lemma {:induction false} LineOf(body: Text, rest: Text)
    requires 10 !in body && (rest == [] || rest[0] == 10)
    ensures LineComment(body + rest) == |body|
  {
    if body == [] {
      assert body + rest == rest;
    } else {
      LineOf(body[1..], rest);
      assert (body + rest)[1..] == body[1..] + rest;
    }
  }

  lemma {:induction false} BlockOf(t: Text, rest: Text)
    requires forall k :: 0 <= k < |t| ==> !Ends(t + [STAR], k)
    ensures BlockComment(t + ([STAR, SLASH] + rest)) == |t|
  {
    var u := t + ([STAR, SLASH] + rest);
    if t == [] {
      assert u == [STAR, SLASH] + rest;
    } else {
      forall k | 0 <= k < |t[1..]| ensures !Ends(t[1..] + [STAR], k) {
        assert !Ends(t + [STAR], k + 1);
        assert (t + [STAR])[k + 1] == (t[1..] + [STAR])[k];
        assert k + 2 < |t + [STAR]| ==> (t + [STAR])[k + 2] == (t[1..] + [STAR])[k + 1];
      }
      BlockOf(t[1..], rest);
      assert u[1..] == t[1..] + ([STAR, SLASH] + rest);
      assert !Ends(t + [STAR], 0);
      assert u[1] == (t + [STAR])[1];
    }
  }

  lemma {:induction false} LiteralOf(body: Text, rest: Text)
    requires Scanned(body)
    ensures LiteralRest(body + ([QUOTE] + rest)) == |body|
    decreases |body|
  {
    var u := body + ([QUOTE] + rest);
    if body == [] {
      assert u == [QUOTE] + rest;
    } else {
      var n := if body[0] == BACKSLASH then 2 else 1;
      LiteralOf(body[n..], rest);
      assert u[n..] == body[n..] + ([QUOTE] + rest);
    }
  }

  /** A token in front of rest is one round of minifying. */
  lemma TokenRound(t: Token, rest: Text)
    requires IsToken(t, rest)
    ensures MinifyRound(TokenText(t) + rest) == Some(Round(Kept(t), |TokenText(t)|))
  {
    match t
    case LineToken(body) => LineRound(body, rest);
    case BlockToken(inner) => BlockRound(inner, rest);
    case Literal(body) => LiteralIsRound(body, rest);
    case _ => ByteRound(t, rest);
  }

  lemma ByteRound(t: Token, rest: Text)
    requires IsToken(t, rest) && (t.Blank? || t.Other?)
    ensures MinifyRound(TokenText(t) + rest) == Some(Round(Kept(t), 1))
  {
    hide LineComment, BlockComment, LiteralRest, Scanned;
    var s := [t.b] + rest;
    assert |s| > 1 ==> s[1] == rest[0];
  }

  lemma LineRound(body: Text, rest: Text)
    requires IsToken(LineToken(body), rest)
    ensures MinifyRound(TokenText(LineToken(body)) + rest) == Some(Round([], |body| + 2))
  {
    hide LineComment, BlockComment, LiteralRest, Scanned;
    LineOf([SLASH, SLASH] + body, rest);
  }

  lemma LiteralIsRound(body: Text, rest: Text)
    requires IsToken(Literal(body), rest)
    ensures MinifyRound(TokenText(Literal(body)) + rest) == Some(Round(TokenText(Literal(body)), |body| + 2))
  {
    hide LineComment, BlockComment, LiteralRest, Scanned;
    var t := TokenText(Literal(body));
    LiteralOf(body, rest);
    assert (t + rest)[1..] == body + ([QUOTE] + rest);
    assert (t + rest)[..|t|] == t;
  }

  lemma BlockRound(inner: Text, rest: Text)
    requires IsToken(BlockToken(inner), rest)
    ensures MinifyRound(TokenText(BlockToken(inner)) + rest) == Some(Round([], |inner| + 3))
  {
    var t := [SLASH] + inner;
    var s := TokenText(BlockToken(inner)) + rest;
    forall k | 0 <= k < |t| ensures !Ends(t + [STAR], k) {
      assert k > 0 ==> !Ends(inner + [STAR], k - 1);
      assert k > 0 ==> (t + [STAR])[k] == (inner + [STAR])[k - 1] && (t + [STAR])[k + 1] == (inner + [STAR])[k];
    }
    BlockOf(t, rest);
    assert s == t + ([STAR, SLASH] + rest);
    assert s[1] == (inner + [STAR])[0] == STAR;
  }

  lemma {:induction false} BlockFound(s: Text)
    requires BlockComment(s) < |s|
    ensures var n := BlockComment(s);
            s[n] == STAR && s[n + 1] == SLASH && forall k :: 0 <= k < n ==> !Ends(s[..n] + [STAR], k)
  {
    var n := BlockComment(s);
    if n > 0 {
      BlockFound(s[1..]);
      forall k | 0 <= k < n ensures !Ends(s[..n] + [STAR], k) {
        if k > 0 {
          assert s[1..][..n - 1] + [STAR] == (s[..n] + [STAR])[1..];
          assert !Ends(s[1..][..n - 1] + [STAR], k - 1);
        } else if n > 1 {
          assert (s[..n] + [STAR])[1] == s[1];
        } else {
          assert (s[..n] + [STAR])[1] == STAR;
        }
      }
    }
  }

  lemma {:induction false} LineFound(s: Text)
    ensures var n := LineComment(s); 10 !in s[..n] && (n == |s| || s[n] == 10)
  {
    if s != [] && s[0] != NEWLINE {
      LineFound(s[1..]);
      var n := LineComment(s);
      assert s[..n] == [s[0]] + s[1..][..n - 1];
    }
  }

  lemma {:induction false} LiteralFound(s: Text)
    requires LiteralRest(s) < |s|
    ensures Scanned(s[..LiteralRest(s)])
    decreases |s|
  {
    var n := LiteralRest(s);
    if s[0] != QUOTE {
      var k := if s[0] == BACKSLASH then 2 else 1;
      LiteralFound(s[k..]);
      assert s[..n][k..] == s[k..][..n - k];
    }
  }

  /** What a round reads is a token. */
  lemma RoundToken(s: Text) returns (t: Token)
    requires s != [] && MinifyRound(s).Some?
    ensures var r := MinifyRound(s).value;
            r.read == |TokenText(t)| && r.keep == Kept(t) && s == TokenText(t) + s[r.read..] && IsToken(t, s[r.read..])
  {
    hide LineComment, BlockComment, LiteralRest, Scanned, Ends;
    if IsBlank(s[0]) {
      t := Blank(s[0]);
    } else if s[0] == SLASH && |s| > 1 && s[1] == SLASH {
      t := LineTokenOf(s);
    } else if s[0] == SLASH && |s| > 1 && s[1] == STAR {
      t := BlockTokenOf(s);
    } else if s[0] == QUOTE {
      t := LiteralTokenOf(s);
    } else {
      t := Other(s[0]);
    }
  }

  lemma LiteralTokenOf(s: Text) returns (t: Token)
    requires s != [] && s[0] == QUOTE && LiteralRest(s[1..]) + 1 < |s|
    ensures var n := LiteralRest(s[1..]) + 2;
            n == |TokenText(t)| && t.Literal? && s == TokenText(t) + s[n..] && s[..n] == TokenText(t)
            && IsToken(t, s[n..])
  {
    hide LiteralRest, Scanned;
    var n := LiteralRest(s[1..]);
    LiteralFound(s[1..]);
    t := Literal(s[1..][..n]);
    assert s[..n + 2] == TokenText(t);
  }

  lemma LineTokenOf(s: Text) returns (t: Token)
    requires |s| > 1 && s[0] == s[1] == SLASH
    ensures var n := LineComment(s);
            n == |TokenText(t)| && t.LineToken? && s == TokenText(t) + s[n..] && IsToken(t, s[n..])
  {
    var n := LineComment(s);
    LineFound(s);
    LineIsLong(s);
    hide LineComment;
    t := LineToken(s[2..n]);
    assert s[..n] == TokenText(t);
    assert forall x <- s[2..n] :: x in s[..n];
  }

  lemma LineIsLong(s: Text)
    ensures |s| > 1 && s[0] == s[1] == SLASH ==> LineComment(s) >= 2
  {
  }

  lemma BlockTokenOf(s: Text) returns (t: Token)
    requires |s| > 1 && s[0] == SLASH && s[1] == STAR && BlockComment(s) < |s|
    ensures var n := BlockComment(s);
            n + 2 == |TokenText(t)| && t.BlockToken? && s == TokenText(t) + s[n + 2..] && IsToken(t, s[n + 2..])
  {
    var n := BlockComment(s);
    BlockFound(s);
    assert n >= 1;
    var inner := s[1..n];
    t := BlockToken(inner);
    forall k | 0 <= k < |inner| ensures !Ends(inner + [STAR], k) {
      assert !Ends(s[..n] + [STAR], k + 1);
      assert inner + [STAR] == (s[..n] + [STAR])[1..];
    }
  }

  /** Which bytes minifying leaves: it comes to an end inside the text if and only if the text is one of tokens, and
      then what is kept are the literals and the other bytes, in order. */
  lemma MinifiedExactly(s: Text, m: Text)
    ensures Minified(s) == Some(m) <==>
            exists ts: seq<Token> :: AreTokens(ts) && TokensText(ts) == s && KeptText(ts) == m
  {
    hide *;
    if Minified(s) == Some(m) {
      var ts := TokensOf(s);
      MinifiedTokens(ts);
    }
    if ts: seq<Token> :| AreTokens(ts) && TokensText(ts) == s && KeptText(ts) == m {
      MinifiedTokens(ts);
    }
  }

  lemma {:induction false} MinifiedTokens(ts: seq<Token>)
    requires AreTokens(ts)
    ensures Minified(TokensText(ts)) == Some(KeptText(ts))
  {
    hide MinifyRound, Minified, IsToken, TokenText, Kept;
    if ts == [] {
      MinifyStart([]);
    } else {
      MinifiedTokens(ts[1..]);
      TokenShrinks(ts[0], TokensText(ts[1..]));
    }
  }

  lemma {:induction false} TokensOf(s: Text) returns (ts: seq<Token>)
    requires Minified(s).Some?
    ensures AreTokens(ts) && TokensText(ts) == s
    decreases |s|
  {
    hide MinifyRound, IsToken, TokenText, Kept;
    ts := [];
    if s != [] {
      var t := RoundToken(s);
      var rest := s[MinifyRound(s).value.read..];
      ts := TokensOf(rest);
      assert ([t] + ts)[1..] == ts;
      ts := [t] + ts;
    }
  }

  // ---------------------------------------------------------------- pieces of a text

  /** In front of rest, the text t minifies to u. */
  predicate Shrinks(t: Text, u: Text, rest: Text) {
    Minified(t + rest) == Prepend(u, Minified(rest))
  }

  lemma TokenShrinks(t: Token, rest: Text)
    requires IsToken(t, rest)
    ensures Shrinks(TokenText(t), Kept(t), rest)
  {
    hide MinifyRound, IsToken, Kept;
    TokenRound(t, rest);
    TokenNotEmpty(t);
    var s := TokenText(t) + rest;
    assert s[|TokenText(t)|..] == rest;
  }

  lemma TokenNotEmpty(t: Token)
    ensures TokenText(t) != []
  {
  }

  lemma Chain(t1: Text, u1: Text, t2: Text, u2: Text, rest: Text)
    requires Shrinks(t1, u1, t2 + rest) && Shrinks(t2, u2, rest)
    ensures Shrinks(t1 + t2, u1 + u2, rest)
  {
    hide Minified;
    assert (t1 + t2) + rest == t1 + (t2 + rest);
    var r := Minified(rest);
    if r.Some? {
      assert u1 + (u2 + r.value) == (u1 + u2) + r.value;
    }
  }

  lemma ShrinksNothing(rest: Text)
    ensures Shrinks([], [], rest)
  {
    hide Minified;
    assert [] + rest == rest;
    var r := Minified(rest);
    if r.Some? {
      assert [] + r.value == r.value;
    }
  }

  /** A byte that minifying keeps wherever it stands outside a literal. */
  predicate Plain(c: Byte) { c > SPACE && c != SLASH && c != QUOTE }

  lemma {:induction false} ShrinksPlain(t: Text, rest: Text)
    requires forall k :: 0 <= k < |t| ==> Plain(t[k])
    ensures Shrinks(t, t, rest)
  {
    if t == [] {
      ShrinksNothing(rest);
    } else {
      ShrinksPlain(t[1..], rest);
      assert ([t[0]] + (t[1..] + rest))[1..] == t[1..] + rest;
      Chain([t[0]], [t[0]], t[1..], t[1..], rest);
      assert [t[0]] + t[1..] == t;
    }
  }

  lemma {:induction false} ShrinksBlank(t: Text, rest: Text)
    requires forall k :: 0 <= k < |t| ==> IsBlank(t[k])
    ensures Shrinks(t, [], rest)
  {
    if t == [] {
      ShrinksNothing(rest);
    } else {
      ShrinksBlank(t[1..], rest);
      ShrinksNothing(t[1..] + rest);
      assert ([t[0]] + (t[1..] + rest))[1..] == t[1..] + rest;
      var nothing: Text := [];
      Chain([t[0]], nothing, t[1..], nothing, rest);
      assert [t[0]] + t[1..] == t && nothing + nothing == nothing;
    }
  }

  /** Minifying keeps t wherever it stands outside a literal. */
  ghost predicate Steady(t: Text) {
    forall rest: Text :: Shrinks(t, t, rest)
  }

  lemma SteadyPlain(t: Text)
    requires forall k :: 0 <= k < |t| ==> Plain(t[k])
    ensures Steady(t)
  {
    forall rest: Text ensures Shrinks(t, t, rest) {
      ShrinksPlain(t, rest);
    }
  }

  /** A control character that is not blank for minifying. */
  lemma SteadyControl(c: Byte)
    requires c <= SPACE && !IsBlank(c)
    ensures Steady([c])
  {
    forall rest: Text ensures Shrinks([c], [c], rest) {
      assert ([c] + rest)[1..] == rest;
    }
  }

  lemma {:induction false} LiteralRestStable(t: Text, rest: Text)
    requires LiteralRest(t) < |t|
    ensures LiteralRest(t + rest) == LiteralRest(t)
    decreases |t|
  {
    var u := t + rest;
    assert u[0] == t[0];
    if t[0] != QUOTE && t[0] != BACKSLASH {
      assert u[1..] == t[1..] + rest;
      LiteralRestStable(t[1..], rest);
    } else if t[0] == BACKSLASH {
      assert u[2..] == t[2..] + rest;
      LiteralRestStable(t[2..], rest);
    }
  }

  lemma SteadyLiteral(t: Text)
    requires |t| >= 2 && t[0] == QUOTE && LiteralRest(t[1..]) == |t| - 2
    ensures Steady(t)
  {
    hide LiteralRest;
    forall rest: Text ensures Shrinks(t, t, rest) {
      LiteralRestStable(t[1..], rest);
      var u := t + rest;
      assert u[1..] == t[1..] + rest && u[..|t|] == t && u[|t|..] == rest;
    }
  }

  lemma BlankIsDropped(a: Text, b: Text)
    requires forall k :: 0 <= k < |a| ==> Plain(a[k])
    requires forall k :: 0 <= k < |b| ==> Plain(b[k])
    ensures Minified(a + ([SPACE] + b)) == Some(a + b)
  {
    hide Minified;
    ShrinksPlain(a, [SPACE] + b);
    ShrinksBlank([SPACE], b);
    ShrinksPlain(b, []);
    MinifyStart(b);
    assert b + [] == b;
  }

  // ---------------------------------------------------------------- minifying twice

  /** A slash is kept and, what stands between them being dropped, gets a slash or star behind it. */
  predicate Joins(s: Text)
    decreases |s|
  {
    s != [] && MinifyRound(s).Some?
    && var rest := s[MinifyRound(s).value.read..];
       Joins(rest) || (MinifyRound(s).value.keep == [SLASH] && StartsComment(Minified(rest)))
  }

  predicate StartsComment(t: Option<Text>) {
    t.Some? && t.value != [] && (t.value[0] == SLASH || t.value[0] == STAR)
  }

  lemma {:induction false} MinifiedIsShorter(s: Text)
    ensures Minified(s).Some? ==> |Minified(s).value| <= |s|
    decreases |s|
  {
    hide MinifyRound;
    if s != [] && MinifyRound(s).Some? {
      MinifiedIsShorter(s[MinifyRound(s).value.read..]);
    }
  }

  lemma CommentIsDropped(t: Text)
    requires StartsComment(Some(t))
    ensures Minified([SLASH] + t).Some? ==> |Minified([SLASH] + t).value| <= |t|
  {
    hide Minified;
    var s := [SLASH] + t;
    MinifyStep([], s);
    MinifyStart(s);
    if Minified(s).Some? {
      var r := MinifyRound(s).value;
      assert r.keep == [];
      MinifyStart(s[r.read..]);
      MinifiedIsShorter(s[r.read..]);
    }
  }

  lemma SlashIsKept(t: Text)
    requires !StartsComment(Some(t))
    ensures Minified([SLASH] + t) == Prepend([SLASH], Minified(t))
  {
    assert ([SLASH] + t)[1..] == t;
  }

  lemma KeptIsSteady(s: Text)
    requires s != [] && MinifyRound(s).Some? && MinifyRound(s).value.keep != [SLASH]
    ensures Steady(MinifyRound(s).value.keep)
  {
    hide Minified, LiteralRest, LineComment, BlockComment;
    var keep := MinifyRound(s).value.keep;
    if s[0] == QUOTE {
      LiteralIsClosed(s);
      SteadyLiteral(keep);
    } else if keep == [] || s[0] > SPACE {
      SteadyPlain(keep);
    } else {
      SteadyControl(s[0]);
    }
  }

  lemma {:induction false} LiteralRestOfPart(t: Text)
    requires LiteralRest(t) < |t|
    ensures LiteralRest(t[..LiteralRest(t) + 1]) == LiteralRest(t)
    decreases |t|
  {
    var n := LiteralRest(t);
    if t[0] != QUOTE {
      var k := if t[0] == BACKSLASH then 2 else 1;
      LiteralRestOfPart(t[k..]);
      assert t[..n + 1][k..] == t[k..][..n - k + 1];
    }
  }

  lemma LiteralIsClosed(s: Text)
    requires s != [] && s[0] == QUOTE && MinifyRound(s).Some?
    ensures var keep := MinifyRound(s).value.keep;
            |keep| >= 2 && keep[0] == QUOTE && LiteralRest(keep[1..]) == |keep| - 2
  {
    hide LiteralRest;
    var n := LiteralRest(s[1..]);
    LiteralRestOfPart(s[1..]);
    assert s[..n + 2][1..] == s[1..][..n + 1];
  }

  /** Minifying twice is minifying once exactly if no slash is joined with a slash or star behind it. */
  lemma {:induction false} MinifyTwiceExactly(s: Text)
    requires Minified(s).Some?
    ensures Minified(Minified(s).value) == Minified(s) <==> !Joins(s)
    decreases |s|
  {
    hide MinifyRound, StartsComment;
    if s != [] {
      var r := MinifyRound(s).value;
      var more := Minified(s[r.read..]).value;
      MinifyTwiceExactly(s[r.read..]);
      TwiceStep(s, r, more);
    }
  }

  lemma TwiceStep(s: Text, r: Round, more: Text)
    requires s != [] && MinifyRound(s) == Some(r)
    ensures r.keep != [SLASH] || !StartsComment(Some(more)) ==>
              (Minified(r.keep + more) == Some(r.keep + more) <==> Minified(more) == Some(more))
    ensures r.keep == [SLASH] && StartsComment(Some(more)) ==> Minified(r.keep + more) != Some(r.keep + more)
  {
    hide MinifyRound, Minified, StartsComment;
    if r.keep != [SLASH] {
      KeptIsSteady(s);
      assert Shrinks(r.keep, r.keep, more);
      SamePrefix(r.keep, Minified(more), more);
    } else if StartsComment(Some(more)) {
      CommentIsDropped(more);
    } else {
      SlashIsKept(more);
      SamePrefix(r.keep, Minified(more), more);
    }
  }

  lemma SamePrefix(a: Text, b: Option<Text>, c: Text)
    ensures Prepend(a, b) == Some(a + c) <==> b == Some(c)
  {
    if b.Some? && a + b.value == a + c {
      assert (a + b.value)[|a|..] == b.value && (a + c)[|a|..] == c;
    }
  }

  /** Where the two slashes of "/ /x" come together, minifying again drops all of it. */
  lemma MinifyTwiceDiffers(x: Text)
    requires forall k :: 0 <= k < |x| ==> Plain(x[k]) && x[k] != STAR
    ensures Minified([SLASH] + ([SPACE] + ([SLASH] + x))) == Some([SLASH] + ([SLASH] + x))
    ensures Minified([SLASH] + ([SLASH] + x)) == Some([])
  {
    LineIsDropped([SLASH] + ([SLASH] + x));
    var a, b := [SPACE] + ([SLASH] + x), [SLASH] + x;
    hide Minified;
    ShrinksPlain(x, []);
    MinifyStart(x);
    assert x + [] == x;
    SlashIsKept(x);
    ShrinksBlank([SPACE], b);
    MinifyStart(b);
    SlashIsKept(a);
  }

  lemma LineIsDropped(t: Text)
    requires |t| > 1 && t[0] == t[1] == SLASH && forall k :: 0 <= k < |t| ==> t[k] != NEWLINE
    ensures Minified(t) == Some([])
  {
    NoLineBreak(t);
    assert t[|t|..] == [];
    assert MinifyRound(t) == Some(Round([], |t|));
    MinifyStep([], t);
    MinifyStart(t);
    MinifyStart([]);
  }

  lemma {:induction false} NoLineBreak(t: Text)
    requires forall k :: 0 <= k < |t| ==> t[k] != NEWLINE
    ensures LineComment(t) == |t|
  {
    if t != [] {
      NoLineBreak(t[1..]);
    }
  }
}
