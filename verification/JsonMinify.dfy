/** cJSON_Minify of 3rdparty/cjson/cJSON.c: an in-place rewrite that drops white space and comments
    outside string literals. */
module JsonMinify {
  import opened Bytes
  import opened JsonString

  predicate IsBlank(c: Byte) { c == SPACE || c == TAB || c == RETURN || c == NEWLINE }

  /** Length of the line comment that s starts with, without its line break. */
  function LineComment(s: Text): (n: nat)
    ensures n <= |s|
  {
    if s == [] || s[0] == NEWLINE then 0 else 1 + LineComment(s[1..])
  }

  /** Length up to the first star that a slash follows; the whole of s if there is none. */
  function BlockComment(s: Text): (n: nat)
    ensures n <= |s|
    ensures n < |s| ==> n + 2 <= |s|
  {
    if s == [] || (|s| > 1 && s[0] == STAR && s[1] == SLASH) then 0 else 1 + BlockComment(s[1..])
  }

  /** Length of the rest of a literal, from behind its opening quote to its closing quote: |s| when
      the literal is not closed. */
  function LiteralRest(s: Text): (n: nat)
    ensures n <= |s|
    ensures n < |s| ==> s[n] == QUOTE
  {
    if s == [] || s[0] == QUOTE then 0
    else if s[0] != BACKSLASH then 1 + LiteralRest(s[1..])
    else if |s| == 1 then 1
    else 2 + LiteralRest(s[2..])
  }

  datatype Round = Round(keep: Text, read: nat)

  /** One round of the main loop at the start of s: the bytes it keeps and how many it reads; None
      when it would read beyond the end of the text, in a comment or literal that is not closed. */
  function MinifyRound(s: Text): (r: Option<Round>)
    requires s != []
    ensures r.Some? ==> |r.value.keep| <= r.value.read <= |s| && r.value.read > 0
  {
    if IsBlank(s[0]) then Some(Round([], 1))
    else if s[0] == SLASH && |s| > 1 && s[1] == SLASH then Some(Round([], LineComment(s)))
    else if s[0] == SLASH && |s| > 1 && s[1] == STAR then
      var n := BlockComment(s);
      if n == |s| then None else Some(Round([], n + 2))
    else if s[0] == QUOTE then
      var n := LiteralRest(s[1..]);
      if n + 1 == |s| then None else Some(Round(s[..n + 2], n + 2))
    else Some(Round([s[0]], 1))
  }

  /** The minified text; None when the text has a comment or literal that is not closed. */
  function Minified(s: Text): Option<Text>
    decreases |s|
  {
    if s == [] then Some([])
    else
      match MinifyRound(s)
      case None => None
      case Some(r) => Prepend(r.keep, Minified(s[r.read..]))
  }

  // ---------------------------------------------------------------- where the cursor goes

  /** How far the literal loop and the copy behind it move from behind an opening quote: the copy takes whatever
      ended the loop, and a backslash takes the byte behind it, the terminator included. */
  function LiteralMove(t: Text): (n: nat)
    ensures n > 0
  {
    if t == [] || t[0] == QUOTE then 1
    else if t[0] != BACKSLASH then 1 + LiteralMove(t[1..])
    else if |t| == 1 then 2
    else 2 + LiteralMove(t[2..])
  }

  /** How far one round of the main loop moves the cursor, in any text. */
  function Move(s: Text): (n: nat)
    requires s != []
    ensures n > 0
  {
    if IsBlank(s[0]) then 1
    else if s[0] == SLASH && |s| > 1 && s[1] == SLASH then LineComment(s)
    else if s[0] == SLASH && |s| > 1 && s[1] == STAR then BlockComment(s) + 2
    else if s[0] == QUOTE then 1 + LiteralMove(s[1..])
    else 1
  }

  /** The cursor goes beyond the terminator of the text, which the code reads on from. */
  predicate Leaves(s: Text)
    decreases |s|
  {
    s != [] && (Move(s) > |s| || Leaves(s[Move(s)..]))
  }

  lemma {:induction false} LiteralMoveExactly(t: Text)
    ensures LiteralMove(t) == LiteralRest(t) + 1
    decreases |t|
  {
    if t != [] && t[0] != QUOTE {
      if t[0] != BACKSLASH {
        LiteralMoveExactly(t[1..]);
      } else if |t| > 1 {
        LiteralMoveExactly(t[2..]);
      }
    }
  }

  /** One round leaves the text exactly when it starts a comment or literal that is not closed. */
  lemma RoundLeaves(s: Text)
    requires s != []
    ensures Move(s) > |s| <==> MinifyRound(s).None?
    ensures MinifyRound(s).Some? ==> MinifyRound(s).value.read == Move(s)
  {
    hide LiteralMove, LiteralRest, LineComment, BlockComment;
    LiteralMoveExactly(s[1..]);
  }

  /** Minifying leaves the text exactly when the minified text is not defined. */
  lemma {:induction false} LeavesExactly(s: Text)
    ensures Leaves(s) <==> Minified(s) == None
    decreases |s|
  {
    hide Move, MinifyRound;
    if s != [] {
      RoundLeaves(s);
      if Move(s) <= |s| {
        LeavesExactly(s[Move(s)..]);
      }
    }
  }

  /** A single quote is enough, and so is the start of a comment. */
  lemma UnclosedLeaves()
    ensures Leaves([QUOTE]) && Leaves([SLASH, STAR]) && Leaves([QUOTE, BACKSLASH, QUOTE])
  {
    assert BlockComment([SLASH, STAR]) == 2;
    assert LiteralMove([BACKSLASH, QUOTE]) == 3;
  }

  // ---------------------------------------------------------------- the in-place rewrite

  lemma MinifyStart(s: Text)
    ensures Prepend([], Minified(s)) == Minified(s) && Prepend(s, Minified([])) == Some(s)
  {
    assert s + [] == s;
    if Minified(s).Some? {
      assert [] + Minified(s).value == Minified(s).value;
    }
  }

  lemma MinifyStep(done: Text, s: Text)
    requires s != []
    ensures MinifyRound(s).None? ==> Minified(s) == None
    ensures MinifyRound(s).Some? ==>
              var r := MinifyRound(s).value;
              Prepend(done, Minified(s)) == Prepend(done + r.keep, Minified(s[r.read..]))
  {
    hide MinifyRound;
    if MinifyRound(s).Some? {
      var r := MinifyRound(s).value;
      var rest := Minified(s[r.read..]);
      if rest.Some? {
        assert done + (r.keep + rest.value) == (done + r.keep) + rest.value;
      }
    }
  }

  /** Where the scanning functions stop. */
  lemma ScansStop(s: Text)
    ensures s == [] || s[0] == NEWLINE ==> LineComment(s) == 0
    ensures s == [] || (|s| > 1 && s[0] == STAR && s[1] == SLASH) ==> BlockComment(s) == 0
    ensures s == [] || s[0] == QUOTE ==> LiteralRest(s) == 0
    ensures s == [] ==> !Leaves(s)
  {
  }

  lemma CommentRound(s: Text, i: nat)
    ensures i < |s| && s[i] != NEWLINE ==> LineComment(s[i..]) == 1 + LineComment(s[i + 1..])
    ensures i < |s| && !(i + 1 < |s| && s[i] == STAR && s[i + 1] == SLASH) ==>
              BlockComment(s[i..]) == 1 + BlockComment(s[i + 1..])
  {
    assert i < |s| ==> s[i..][1..] == s[i + 1..];
  }

  lemma MoveStep(s: Text)
    ensures s != [] ==> (Leaves(s) <==> Move(s) > |s| || Leaves(s[Move(s)..]))
  {
  }

  /** cJSON_Minify on the C string held by json[..n].  Reading never falls behind writing: `into` never
      overtakes `at`, so the text still to be read is intact until it is read.  The code does not compare the
      cursor with n: where the loop here ends for that reason, the code reads beyond the terminator. */
  method Minify(json: array<Byte>, n: nat) returns (overrun: bool, length: nat)
    requires n < json.Length && json[n] == NUL && NulFree(json[..n])
    modifies json
    ensures overrun <==> Leaves(old(json[..n]))
    ensures !overrun ==> length <= n && json[length] == NUL && Some(json[..length]) == Minified(old(json[..n]))
  {
    hide Minified, MinifyRound, Leaves, Move;
    var at, into := 0, 0;
    assert json[0..n] == json[..n];
    assert forall k :: 0 <= k < n ==> json[k] == json[..n][k];
    MinifyStart(json[..n]);
    while at <= n && json[at] != NUL
      invariant 0 <= at && 0 <= into
      invariant at <= n ==> into <= at && json[n] == NUL && forall k :: at <= k < n ==> json[k] == old(json[k]) != NUL
      invariant at <= n ==> Prepend(json[..into], Minified(json[at..n])) == Minified(old(json[..n]))
      invariant Leaves(old(json[..n])) == (at > n || Leaves(json[at..n]))
      decreases n - at
    {
      MinifyStep(json[..into], json[at..n]);
      MoveStep(json[at..n]);
      RoundLeaves(json[at..n]);
      ghost var done, rest := json[..into], json[at..n];
      var read, wrote := MinifyOnce(json, at, into, n);
      if at + read <= n {
        assert json[..into + wrote] == done + json[into..into + wrote];
        assert json[at + read..n] == rest[read..];
      }
      at, into := at + read, into + wrote;
    }
    overrun, length := at > n, into;
    if overrun {
      return;
    }
    assert json[n..n] == [];
    ScansStop([]);
    MinifyStart(json[..into]);
    Terminate(json, into);
  }

  method Terminate(json: array<Byte>, at: nat)
    requires at < json.Length
    modifies json
    ensures json[..at] == old(json[..at]) && json[at] == NUL
  {
    json[at] := NUL;
  }

  /** One round of the main loop, at json[start] with the write position at `into`. */
  method MinifyOnce(json: array<Byte>, start: nat, into: nat, n: nat) returns (read: nat, wrote: nat)
    requires into <= start < n < json.Length && json[n] == NUL && forall k :: start <= k < n ==> json[k] != NUL
    modifies json
    ensures read == Move(old(json[start..n]))
    ensures read <= n - start ==> wrote <= read && json[..into] == old(json[..into])
                                  && MinifyRound(old(json[start..n])) == Some(Round(json[into..into + wrote], read))
                                  && forall k :: start + read <= k < json.Length ==> json[k] == old(json[k])
  {
    hide LineComment, BlockComment, LiteralRest, LiteralMove;
    ghost var s := json[start..n];
    assert s[0] == json[start] && (|s| > 1 ==> s[1] == json[start + 1]) && s[1..] == json[start + 1..n];
    LiteralMoveExactly(s[1..]);
    if json[start] == SPACE || json[start] == TAB || json[start] == RETURN || json[start] == NEWLINE {
      read, wrote := 1, 0;
    } else if json[start] == SLASH && json[start + 1] == SLASH {
      read := SkipLineComment(json, start, n);
      wrote := 0;
    } else if json[start] == SLASH && json[start + 1] == STAR {
      read := SkipBlockComment(json, start, n);
      wrote := 0;
    } else if json[start] == QUOTE {
      read := CopyLiteral(json, start, into, n);
      wrote := read;
      assert read <= |s| ==> s[..read] == [QUOTE] + s[1..][..read - 1];
    } else {
      json[into] := json[start];
      read, wrote := 1, 1;
      assert json[into..into + 1] == [s[0]];
    }
    assert wrote == 0 ==> json[into..into + wrote] == [];
  }

  method SkipLineComment(json: array<Byte>, start: nat, ghost n: nat) returns (read: nat)
    requires start < n < json.Length && json[n] == NUL && forall k :: start <= k < n ==> json[k] != NUL
    ensures read == LineComment(json[start..n])
  {
    hide LineComment;
    ghost var s := json[start..n];
    var at := start;
    while json[at] != NUL && json[at] != NEWLINE
      invariant start <= at <= n && LineComment(s) == at - start + LineComment(s[at - start..])
      decreases n - at
    {
      CommentRound(s, at - start);
      at := at + 1;
    }
    ScansStop(s[at - start..]);
    read := at - start;
  }

  method SkipBlockComment(json: array<Byte>, start: nat, ghost n: nat) returns (read: nat)
    requires start < n < json.Length && json[n] == NUL && forall k :: start <= k < n ==> json[k] != NUL
    ensures read == BlockComment(json[start..n]) + 2
  {
    hide BlockComment;
    ghost var s := json[start..n];
    var at := start;
    while json[at] != NUL && !(json[at] == STAR && json[at + 1] == SLASH)
      invariant start <= at <= n && BlockComment(s) == at - start + BlockComment(s[at - start..])
      decreases n - at
    {
      CommentRound(s, at - start);
      at := at + 1;
    }
    ScansStop(s[at - start..]);
    read := at + 2 - start;
  }

  /** The literal loop from behind the opening quote on; it ends at the closing quote, at the terminator, or beyond. */
  method CopyUnits(json: array<Byte>, start: nat, into: nat, n: nat, ghost s: Text)
    returns (at: nat, out: nat, ghost k: nat)
    requires into < start <= n < json.Length && json[into..into + 1] == [QUOTE] && s == json[start..n]
    requires json[n] == NUL && forall k :: start <= k < n ==> json[k] != NUL
    modifies json
    ensures at == start + k && out == into + 1 + k && k <= |s| + 1 && (k <= |s| ==> k == |s| || s[k] == QUOTE)
    ensures LiteralMove(s) == if k <= |s| then k + 1 else k
    ensures k <= |s| ==> json[into..out] == [QUOTE] + s[..k]
    ensures json[..into] == old(json[..into]) && forall i :: at <= i < json.Length ==> json[i] == old(json[i])
  {
    hide LiteralMove;
    at, out, k := start, into + 1, 0;
    assert s[0..] == s && s[..0] == [];
    while at <= n && json[at] != NUL && json[at] != QUOTE
      invariant at == start + k && out == into + 1 + k && k <= |s| + 1
      invariant LiteralMove(s) == if k <= |s| then k + LiteralMove(s[k..]) else k
      invariant forall i :: at <= i < json.Length ==> json[i] == old(json[i])
      invariant k <= |s| ==> json[into..out] == [QUOTE] + s[..k]
      invariant json[..into] == old(json[..into])
      decreases |s| + 1 - k
    {
      assert json[at] == s[k] && (k + 1 < |s| ==> json[at + 1] == s[k + 1]);
      LiteralMoveRound(s, k);
      at, out, k := CopyUnit(json, at, out, into, s, k);
    }
    if k <= |s| {
      LiteralMoveRound(s, k);
    }
  }

  /** A string literal; if it is not closed the cursor ends beyond the terminator. */
  method CopyLiteral(json: array<Byte>, start: nat, into: nat, n: nat) returns (read: nat)
    requires into <= start < n < json.Length && json[start] == QUOTE
    requires json[n] == NUL && forall k :: start <= k < n ==> json[k] != NUL
    modifies json
    ensures read == 1 + LiteralMove(old(json[start + 1..n]))
    ensures read <= n - start ==> json[into..into + read] == [QUOTE] + old(json[start + 1..n])[..read - 1]
    ensures json[..into] == old(json[..into])
    ensures forall k :: start + read <= k < json.Length ==> json[k] == old(json[k])
  {
    hide LiteralMove;
    ghost var s := json[start + 1..n];
    json[into] := json[start];
    assert json[start + 1..n] == s;
    ghost var k;
    var at, out;
    at, out, k := CopyUnits(json, start + 1, into, n, s);
    if at <= n {
      if k < |s| {
        TakeNext(s, k);
      }
      at, out := CopyByte(json, at, out, into, s[..k]);
    }
    read := at - start;
  }

  lemma LiteralMoveRound(s: Text, k: nat)
    requires k <= |s|
    ensures LiteralMove(s[k..]) ==
            if k == |s| || s[k] == QUOTE then 1
            else if s[k] != BACKSLASH then 1 + LiteralMove(s[k + 1..])
            else if k + 1 == |s| then 2
            else 2 + LiteralMove(s[k + 2..])
  {
    if k < |s| {
      assert s[k..][1..] == s[k + 1..];
      if k + 1 < |s| {
        assert s[k..][2..] == s[k + 2..];
      }
    }
  }

  /** One round of the literal loop, at byte k of s: a byte, or a backslash with the byte behind it. */
  method CopyUnit(json: array<Byte>, at: nat, out: nat, ghost into: nat, ghost s: Text, ghost k: nat)
    returns (at': nat, out': nat, ghost k': nat)
    requires into <= out <= at && k < |s| && at + |s| - k < json.Length && json[into..out] == [QUOTE] + s[..k]
    requires s[k] == json[at] && (k + 1 < |s| ==> s[k + 1] == json[at + 1])
    modifies json
    ensures k' == k + (if s[k] == BACKSLASH then 2 else 1) && k' - k == at' - at == out' - out
    ensures k' <= |s| ==> json[into..out'] == [QUOTE] + s[..k']
    ensures json[..into] == old(json[..into])
    ensures forall i :: at' <= i < json.Length ==> json[i] == old(json[i])
  {
    TakeNext(s, k);
    at', out' := at, out;
    if json[at'] == BACKSLASH {
      at', out' := CopyByte(json, at', out', into, s[..k]);
      if k + 1 < |s| {
        TakeNext(s, k + 1);
      }
      at', out' := CopyByte(json, at', out', into, s[..k + 1]);
      k' := k + 2;
    } else {
      at', out' := CopyByte(json, at', out', into, s[..k]);
      k' := k + 1;
    }
  }

  lemma TakeNext(s: Text, k: nat)
    ensures k < |s| ==> s[..k + 1] == s[..k] + [s[k]]
  {
  }

  method CopyByte(json: array<Byte>, at: nat, out: nat, ghost into: nat, ghost done: Text)
    returns (at': nat, out': nat)
    requires into <= out <= at < json.Length && json[into..out] == [QUOTE] + done
    modifies json
    ensures at' == at + 1 && out' == out + 1 && json[into..out + 1] == [QUOTE] + (done + [old(json[at])])
    ensures json[..into] == old(json[..into])
    ensures forall k :: at < k < json.Length ==> json[k] == old(json[k])
  {
    json[out] := json[at];
    assert json[into..out + 1] == json[into..out] + [json[out]];
    at', out' := at + 1, out + 1;
  }
}
