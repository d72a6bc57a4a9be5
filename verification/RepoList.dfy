/** The comma-separated repository list of lib/linyaps_dbus_msg.c: how it is built and taken apart. */
module RepoList {
  import opened Bytes

  predicate IsIndent(c: Byte) { c == SPACE || c == TAB }

  // ---------------------------------------------------------------- joining

  /** csv_append on the text of the list; NULL and empty names add nothing. */
  function Appended(csv: Option<Text>, repo: Option<Text>): Option<Text> {
    if repo.None? || repo.value == [] then csv
    else if csv.None? || csv.value == [] then repo
    else Some(csv.value + [COMMA] + repo.value)
  }

  /** The list built by appending all names in order; None for the NULL pointer. */
  function Joined(names: seq<Option<Text>>): Option<Text> {
    if names == [] then None else Appended(Joined(names[..|names| - 1]), names[|names| - 1])
  }

  /** The names that are not NULL and not empty. */
  function Present(names: seq<Option<Text>>): (r: seq<Text>) {
    if names == [] then []
    else (if names[0].Some? && |names[0].value| > 0 then [names[0].value] else []) + Present(names[1..])
  }

  /** The names with one comma between any two. */
  function CommaList(names: seq<Text>): Text {
    if names == [] then [] else if |names| == 1 then names[0] else names[0] + ([44] + CommaList(names[1..]))
  }

  lemma {:induction false} CommaListBehind(names: seq<Text>, name: Text)
    ensures CommaList(names + [name]) == if names == [] then name else CommaList(names) + ([44] + name)
  {
    if names == [] {
      assert names + [name] == [name];
    } else {
      CommaListBehind(names[1..], name);
      assert (names + [name])[1..] == names[1..] + [name];
    }
  }

  lemma {:induction false} PresentBehind(names: seq<Option<Text>>, name: Option<Text>)
    ensures Present(names + [name]) == Present(names) + if name.Some? && |name.value| > 0 then [name.value] else []
  {
    if names == [] {
      assert names + [name] == [name];
      assert Present([name][1..]) == [];
    } else {
      PresentBehind(names[1..], name);
      assert (names + [name])[1..] == names[1..] + [name];
    }
  }

  lemma {:induction false} CommaListNotEmpty(names: seq<Text>)
    requires names != [] && forall i :: 0 <= i < |names| ==> names[i] != []
    ensures CommaList(names) != []
  {
  }

  lemma {:induction false} PresentNotEmpty(names: seq<Option<Text>>)
    ensures forall i :: 0 <= i < |Present(names)| ==> Present(names)[i] != []
  {
    if names != [] {
      PresentNotEmpty(names[1..]);
    }
  }

  /** The list of any names is NULL if none is left of them, and else those left with one comma between any two. */
  lemma {:induction false} JoinedExactly(names: seq<Option<Text>>)
    ensures Joined(names) == if Present(names) == [] then None else Some(CommaList(Present(names)))
  {
    hide CommaList, Present;
    if names == [] {
      NothingPresent();
    } else {
      var init, last := names[..|names| - 1], names[|names| - 1];
      JoinedExactly(init);
      PresentBehind(init, last);
      assert init + [last] == names;
      PresentNotEmpty(init);
      if Present(init) != [] {
        CommaListNotEmpty(Present(init));
      }
      assert Present(init) + [] == Present(init);
      if last.Some? {
        var csv := CommaList(Present(init));
        CommaListBehind(Present(init), last.value);
        assert csv + [COMMA] + last.value == csv + ([44] + last.value);
      }
    }
  }

  lemma NothingPresent()
    ensures Present([]) == []
  {
  }

  /** csv holds the C string that t describes. */
  ghost predicate Holds(csv: array?<Byte>, t: Option<Text>)
    reads csv
  {
    if csv == null then t == None
    else t.Some? && csv.Length == |t.value| + 1 && csv[..] == t.value + [NUL] && NulFree(t.value)
  }

  method StrLen(s: array<Byte>, ghost t: Text) returns (n: nat)
    requires Holds(s, Some(t))
    ensures n == |t|
  {
    n := 0;
    assert forall k :: 0 <= k < |t| ==> s[k] == s[..][k] == t[k];
    assert s[|t|] == s[..][|t|] == NUL;
    while s[n] != NUL
      invariant 0 <= n <= |t|
      decreases |t| - n
    {
      n := n + 1;
    }
  }

  /** csv_append: copies the old list, a comma and the new name into a larger buffer. */
  method CsvAppend(csv: array?<Byte>, repo: Option<Text>, ghost t: Option<Text>) returns (next: array?<Byte>)
    requires Holds(csv, t) && (repo.Some? ==> NulFree(repo.value))
    ensures Holds(next, Appended(t, repo))
    ensures next == csv || fresh(next)
  {
    if repo.None? || repo.value == [] {
      return csv;
    }
    var oldLength := 0;
    if csv != null {
      oldLength := StrLen(csv, t.value);
    }
    var comma := if oldLength > 0 then 1 else 0;
    var name := repo.value;
    var buffer := new Byte[oldLength + comma + |name| + 1];
    ghost var before := if csv == null then [] else t.value;
    if csv != null {
      CopyTo(buffer, 0, csv[..oldLength]);
      assert csv[..oldLength] == before;
    }
    assert buffer[..oldLength] == before;
    AddName(buffer, oldLength, name);
    next := buffer;
  }

  /** The comma, if text stands before it, the name and the terminator. */
  method AddName(buffer: array<Byte>, oldLength: nat, name: Text)
    requires buffer.Length == oldLength + (if oldLength > 0 then 1 else 0) + |name| + 1
    modifies buffer
    ensures buffer[..] == old(buffer[..oldLength]) + (if oldLength > 0 then [COMMA] else []) + name + [NUL]
  {
    ghost var before := buffer[..oldLength];
    var at := oldLength;
    if oldLength > 0 {
      buffer[at] := COMMA;
      at := at + 1;
    }
    assert buffer[..at] == before + if oldLength > 0 then [COMMA] else [];
    CopyTo(buffer, at, name);
    Terminate(buffer, at + |name|);
  }

  method Terminate(buffer: array<Byte>, at: nat)
    requires at == buffer.Length - 1
    modifies buffer
    ensures buffer[..] == old(buffer[..at]) + [NUL]
  {
    buffer[at] := NUL;
  }

  /** memcpy to buffer[at..]. */
  method CopyTo(buffer: array<Byte>, at: nat, t: Text)
    requires at + |t| <= buffer.Length
    modifies buffer
    ensures buffer[..at + |t|] == old(buffer[..at]) + t
  {
    ghost var head := buffer[..at];
    for i := 0 to |t|
      invariant buffer[..at] == head && forall k :: 0 <= k < i ==> buffer[at + k] == t[k]
    {
      buffer[at + i] := t[i];
    }
  }

  // ---------------------------------------------------------------- splitting

  /** Bytes of s before its first comma. */
  function TokenLength(s: Text): (n: nat)
    ensures n <= |s| && forall k :: 0 <= k < n ==> s[k] != COMMA
    ensures n < |s| ==> s[n] == COMMA
  {
    if s == [] || s[0] == COMMA then 0 else 1 + TokenLength(s[1..])
  }

  /** t without its leading spaces and tabs. */
  function Stripped(t: Text): (r: Text)
    ensures |r| <= |t| && r == t[|t| - |r|..]
    ensures r != [] ==> !IsIndent(r[0])
  {
    if t == [] || !IsIndent(t[0]) then t else Stripped(t[1..])
  }

  /** The names append_repos passes on: the pieces between commas, stripped, without empty ones. */
  function Split(s: Text): seq<Text>
    decreases |s|
  {
    if s == [] then []
    else
      var n := TokenLength(s);
      var name := Stripped(s[..n]);
      var rest := if n < |s| then Split(s[n + 1..]) else [];
      (if name == [] then [] else [name]) + rest
  }

  /** A name that survives the way through the list. */
  predicate Clean(name: Text) { name != [] && COMMA !in name && !IsIndent(name[0]) }

  lemma SplitRound(s: Text)
    ensures s == [] ==> Split(s) == []
    ensures s != [] && s[0] == COMMA ==> Split(s) == Split(s[1..])
    ensures s != [] && TokenLength(s) == |s| ==> Split(s) == if Stripped(s) == [] then [] else [Stripped(s)]
    ensures var n := TokenLength(s);
            n < |s| ==> Split(s) == (if Stripped(s[..n]) == [] then [] else [Stripped(s[..n])]) + Split(s[n + 1..])
  {
    hide Stripped;
    StrippedNothing();
    assert s[..|s|] == s;
    if s != [] && s[0] == COMMA {
      assert s[..0] == [];
      assert [] + Split(s[1..]) == Split(s[1..]);
    }
  }

  lemma CommaSkipped(s: Text, i: nat)
    requires i < |s| && s[i] == COMMA
    ensures Split(s[i..]) == Split(s[i + 1..])
  {
    hide Split, TokenLength, Stripped;
    SplitRound(s[i..]);
    assert s[i..][1..] == s[i + 1..];
  }

  lemma StrippedNothing()
    ensures Stripped([]) == []
  {
  }

  lemma TokenLengthRound(s: Text, i: nat)
    requires i < |s| && s[i] != COMMA
    ensures TokenLength(s[i..]) == 1 + TokenLength(s[i + 1..])
  {
    assert s[i..][1..] == s[i + 1..];
  }

  lemma StrippedRound(s: Text, i: nat, e: nat)
    requires i <= e <= |s|
    ensures i < e && IsIndent(s[i]) ==> Stripped(s[i..e]) == Stripped(s[i + 1..e])
    ensures i == e || !IsIndent(s[i]) ==> Stripped(s[i..e]) == s[i..e]
  {
    hide Stripped;
    var t := s[i..e];
    StrippedStep(t);
    if i < e {
      assert t[0] == s[i] && t[1..] == s[i + 1..e];
    }
  }

  lemma StrippedStep(t: Text)
    ensures Stripped(t) == if t == [] || !IsIndent(t[0]) then t else Stripped(t[1..])
  {
  }

  /** copy still holds s from position `from` on, terminator included. */
  ghost predicate Intact(copy: array<Byte>, s: Text, from: nat)
    reads copy
  {
    copy.Length == |s| + 1 && copy[|s|] == NUL && forall k :: from <= k < |s| ==> copy[k] == s[k] != NUL
  }

  /** strtok_r skips the commas in front of a token. */
  method SkipCommas(copy: array<Byte>, start: nat, ghost s: Text) returns (tok: nat)
    requires start <= |s| && Intact(copy, s, start)
    ensures start <= tok <= |s| && copy[tok] != COMMA && Split(s[start..]) == Split(s[tok..])
  {
    hide Split, TokenLength, Stripped;
    tok := start;
    while copy[tok] == COMMA
      invariant start <= tok <= |s| && Split(s[start..]) == Split(s[tok..])
      decreases |s| - tok
    {
      CommaSkipped(s, tok);
      tok := tok + 1;
    }
  }

  /** strtok_r looks for the end of a token. */
  method TokenEnd(copy: array<Byte>, tok: nat, ghost s: Text) returns (end: nat)
    requires tok < |s| && Intact(copy, s, tok) && copy[tok] != COMMA
    ensures tok < end <= |s| && end == tok + TokenLength(s[tok..])
  {
    hide TokenLength;
    end := tok;
    while copy[end] != NUL && copy[end] != COMMA
      invariant tok <= end <= |s| && TokenLength(s[tok..]) == end - tok + TokenLength(s[end..])
      decreases |s| - end
    {
      TokenLengthRound(s, end);
      end := end + 1;
    }
    TokenStops(s[end..]);
  }

  /** strtok_r: the next piece copy[tok..end], cut off in place, and where to go on. */
  method NextToken(copy: array<Byte>, start: nat, ghost s: Text) returns (found: bool, tok: nat, end: nat, save: nat)
    requires start <= |s| && Intact(copy, s, start)
    modifies copy
    ensures !found ==> Split(s[start..]) == []
    ensures found ==> start <= tok < end <= |s| && end <= save <= |s| && save > start && copy[end] == NUL
    ensures found ==> Intact(copy, s, save) && forall k :: tok <= k < end ==> copy[k] == s[k] != NUL
    ensures found ==> Split(s[start..]) ==
                      (if Stripped(s[tok..end]) == [] then [] else [Stripped(s[tok..end])]) + Split(s[save..])
  {
    hide Split, Stripped, TokenLength;
    end, save := start, start;
    tok := SkipCommas(copy, start, s);
    if copy[tok] == NUL {
      NothingToSplit();
      assert s[tok..] == [];
      return false, tok, end, save;
    }
    end := TokenEnd(copy, tok, s);
    SplitToken(s, tok, end);
    found := true;
    if copy[end] == COMMA {
      copy[end] := NUL;
      save := end + 1;
    } else {
      save := end;
    }
  }

  /** What remains to be split behind the token s[tok..end]. */
  lemma SplitToken(s: Text, tok: nat, end: nat)
    requires tok < |s| && end == tok + TokenLength(s[tok..])
    ensures Split(s[tok..]) ==
            (if Stripped(s[tok..end]) == [] then [] else [Stripped(s[tok..end])])
            + Split(s[if end < |s| then end + 1 else end..])
  {
    hide Split, Stripped, TokenLength;
    SplitRound(s[tok..]);
    TailPieces(s, tok, end);
    if end == |s| {
      NothingToSplit();
    }
  }

  lemma TailPieces(s: Text, tok: nat, end: nat)
    requires tok <= end <= |s|
    ensures s[tok..][..end - tok] == s[tok..end]
    ensures end < |s| ==> s[tok..][end - tok + 1..] == s[end + 1..]
    ensures end == |s| ==> s[end..] == [] && s[tok..end] == s[tok..]
  {
  }

  lemma TokenStops(s: Text)
    ensures s == [] || s[0] == COMMA ==> TokenLength(s) == 0
  {
  }

  /** append_repos: the names that are sent, in order. */
  method AppendRepos(repos: Option<Text>) returns (names: seq<Text>)
    requires repos.Some? ==> NulFree(repos.value)
    ensures names == if repos.Some? then Split(repos.value) else []
  {
    hide Split, Stripped;
    names := [];
    if repos.None? || repos.value == [] {
      NothingToSplit();
      return;
    }
    var s := repos.value;
    var copy := new Byte[|s| + 1](k => if 0 <= k < |s| then s[k] else NUL);
    var found, save := true, 0;
    assert s[0..] == s;
    assert names + Split(s[0..]) == Split(s);
    while found
      invariant 0 <= save && (found ==> save <= |s| && Intact(copy, s, save))
      invariant Split(s) == names + if found then Split(s[save..]) else []
      decreases found, if found then |s| - save else 0
    {
      var next;
      found, next, save := NextName(copy, save, s);
      names := names + next;
    }
  }

  /** One round of the loop: the next token without its indentation, if anything is left of it. */
  method NextName(copy: array<Byte>, start: nat, ghost s: Text) returns (found: bool, names: seq<Text>, save: nat)
    requires start <= |s| && Intact(copy, s, start)
    modifies copy
    ensures found ==> start < save <= |s| && Intact(copy, s, save)
    ensures Split(s[start..]) == names + if found then Split(s[save..]) else []
  {
    hide Split, Stripped;
    names := [];
    var tok, end;
    found, tok, end, save := NextToken(copy, start, s);
    if found {
      tok := SkipIndent(copy, tok, end, s);
      if copy[tok] != NUL {
        names := [copy[tok..end]];
      }
    }
  }

  lemma NothingToSplit()
    ensures Split([]) == []
  {
  }

  /** The loop that skips leading spaces and tabs of a token. */
  method SkipIndent(copy: array<Byte>, start: nat, end: nat, ghost s: Text) returns (tok: nat)
    requires start <= end < copy.Length && end <= |s| && copy[end] == NUL
    requires forall k :: start <= k < end ==> copy[k] == s[k] != NUL
    ensures start <= tok <= end && copy[tok..end] == Stripped(s[start..end])
    ensures copy[tok] == NUL <==> Stripped(s[start..end]) == []
  {
    hide Stripped;
    tok := start;
    while copy[tok] == SPACE || copy[tok] == TAB
      invariant start <= tok <= end && Stripped(s[start..end]) == Stripped(s[tok..end])
      decreases end - tok
    {
      StrippedRound(s, tok, end);
      tok := tok + 1;
    }
    StrippedRound(s, tok, end);
    SameSlice(copy, tok, end, s);
  }

  lemma SameSlice(copy: array<Byte>, tok: nat, end: nat, s: Text)
    requires tok <= end < copy.Length && end <= |s|
    requires forall k :: tok <= k < end ==> copy[k] == s[k]
    ensures copy[tok..end] == s[tok..end]
  {
  }

  // ---------------------------------------------------------------- round trips

  lemma {:induction false} TokenLengthConcat(a: Text, b: Text)
    ensures TokenLength(a) == |a| ==> TokenLength(a + [COMMA] + b) == |a|
    ensures TokenLength(a) < |a| ==> TokenLength(a + [COMMA] + b) == TokenLength(a)
  {
    if a == [] {
      assert ([] + [COMMA] + b)[0] == COMMA;
    } else if a[0] != COMMA {
      TokenLengthConcat(a[1..], b);
      assert (a + [COMMA] + b)[1..] == a[1..] + [COMMA] + b;
    }
  }

  /** Splitting two lists joined by a comma splits each of them. */
  lemma {:induction false} SplitConcat(a: Text, b: Text)
    ensures Split(a + [COMMA] + b) == Split(a) + Split(b)
    decreases |a|
  {
    hide Split, TokenLength, Stripped;
    var s, n := a + [COMMA] + b, TokenLength(a);
    TokenLengthConcat(a, b);
    SplitRound(a);
    SplitRound(s);
    ConcatPieces(a, b, n);
    if n == |a| {
      NothingToSplit();
      StrippedNothing();
    } else {
      SplitConcat(a[n + 1..], b);
      Regroup(if Stripped(a[..n]) == [] then [] else [Stripped(a[..n])], Split(a[n + 1..]), Split(b));
    }
  }

  lemma ConcatPieces(a: Text, b: Text, n: nat)
    requires n <= |a|
    ensures var s := a + [COMMA] + b;
            |s| > |a| && s[..n] == a[..n] && (n == |a| ==> s[n + 1..] == b && a[..n] == a)
            && (n < |a| ==> s[n + 1..] == a[n + 1..] + [COMMA] + b)
  {
  }

  lemma Regroup(x: seq<Text>, y: seq<Text>, z: seq<Text>)
    ensures x + (y + z) == (x + y) + z
  {
  }

  lemma SplitClean(name: Text)
    requires Clean(name)
    ensures Split(name) == [name]
  {
    SplitRound(name);
  }

  function Somes(names: seq<Text>): (r: seq<Option<Text>>)
    ensures |r| == |names| && forall i :: 0 <= i < |names| ==> r[i] == Some(names[i])
  {
    if names == [] then [] else [Some(names[0])] + Somes(names[1..])
  }

  /** Joining clean names and splitting the list gives back the names. */
  lemma {:induction false} SplitJoined(names: seq<Text>)
    requires forall i :: 0 <= i < |names| ==> Clean(names[i])
    ensures names == [] <==> Joined(Somes(names)) == None
    ensures names != [] ==> Joined(Somes(names)).value != [] && Split(Joined(Somes(names)).value) == names
  {
    hide Split, Somes;
    if names != [] {
      var n := |names| - 1;
      var init := names[..n];
      SplitJoined(init);
      SplitClean(names[n]);
      assert Somes(names)[..n] == Somes(init);
      assert init + [names[n]] == names;
      if n > 0 {
        SplitConcat(Joined(Somes(init)).value, names[n]);
      }
    }
  }

  lemma {:induction false} SplitNamesAreClean(s: Text)
    ensures forall i :: 0 <= i < |Split(s)| ==> Clean(Split(s)[i])
    decreases |s|
  {
    hide Split, TokenLength, Stripped;
    SplitRound(s);
    if s != [] {
      var n := TokenLength(s);
      StrippedIsClean(s[..n]);
      if n < |s| {
        SplitNamesAreClean(s[n + 1..]);
      } else {
        assert s[..n] == s;
      }
    }
  }

  lemma StrippedIsClean(t: Text)
    ensures COMMA !in t ==> Stripped(t) == [] || Clean(Stripped(t))
  {
  }

  /** The names that come out when names are joined to a list and the list is split. */
  function Returned(names: seq<Text>): seq<Text> {
    var csv := Joined(Somes(names));
    if csv.Some? then Split(csv.value) else []
  }

  /** The way through the list is lossless exactly for clean names. */
  lemma RoundTripExactly(names: seq<Text>)
    ensures Returned(names) == names <==> forall i :: 0 <= i < |names| ==> Clean(names[i])
  {
    hide Split, Joined;
    var csv := Joined(Somes(names));
    if csv.Some? {
      SplitNamesAreClean(csv.value);
    }
    if forall i :: 0 <= i < |names| ==> Clean(names[i]) {
      SplitJoined(names);
    }
  }

  /** For every repository string, splitting, joining and splitting again equals splitting once. */
  lemma SplitJoinSplit(s: Text)
    ensures Returned(Split(s)) == Split(s)
  {
    hide Split, Joined;
    SplitNamesAreClean(s);
    SplitJoined(Split(s));
  }

  /** A piece of blanks and tabs and a name, which may be empty, without a comma: the name is passed on unless it is
      empty. */
  lemma SplitPiece(indent: Text, name: Text)
    requires forall k :: 0 <= k < |indent| ==> indent[k] in {32, 9}
    requires 44 !in name && (name != [] ==> name[0] !in {32, 9})
    ensures Split(indent + name) == if name == [] then [] else [name]
  {
    var s := indent + name;
    StrippedIndent(indent, name);
    NoComma(s);
    hide Stripped, TokenLength;
    SplitRound(s);
  }

  lemma {:induction false} StrippedIndent(indent: Text, name: Text)
    requires forall k :: 0 <= k < |indent| ==> indent[k] in {32, 9}
    requires name != [] ==> name[0] !in {32, 9}
    ensures Stripped(indent + name) == name
  {
    hide Stripped;
    if indent == [] {
      assert indent + name == name;
      NotStripped(name);
    } else {
      StrippedIndent(indent[1..], name);
      assert indent + name == [indent[0]] + (indent[1..] + name);
      StripOne(indent[0], indent[1..] + name);
    }
  }

  lemma NotStripped(name: Text)
    ensures name == [] || name[0] !in {32, 9} ==> Stripped(name) == name
  {
  }

  lemma StripOne(b: Byte, t: Text)
    requires b in {32, 9}
    ensures Stripped([b] + t) == Stripped(t)
  {
    assert ([b] + t)[1..] == t;
  }

  lemma {:induction false} NoComma(s: Text)
    requires forall k :: 0 <= k < |s| ==> s[k] != 44
    ensures TokenLength(s) == |s|
  {
    if s != [] {
      NoComma(s[1..]);
    }
  }
}
