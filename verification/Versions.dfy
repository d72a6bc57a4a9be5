/** Version comparison of lib/linyaps_dbus_msg.c. */
module Versions {
  import opened Bytes
  import opened Decimals

  const LLONG_MAX := 0x7FFF_FFFF_FFFF_FFFF

  /** strcmp, by sign. */
  function StrCmp(a: Text, b: Text): int {
    if a == [] then (if b == [] then 0 else -1)
    else if b == [] then 1
    else if a[0] != b[0] then (if a[0] < b[0] then -1 else 1)
    else StrCmp(a[1..], b[1..])
  }

  /** Bytes of s before its first digit. */
  function NonDigits(s: Text): (n: nat)
    ensures n <= |s|
    ensures n < |s| ==> IsDigit(s[n])
  {
    if s == [] || IsDigit(s[0]) then 0 else 1 + NonDigits(s[1..])
  }

  /** What strtoll reads from a run of digits. */
  function Saturated(n: nat): nat { if n > LLONG_MAX then LLONG_MAX else n }

  datatype Reading = Reading(value: nat, rest: Text)

  /** read_version_number: the next number of s and the text behind it. */
  function ReadNumber(s: Text): (r: Option<Reading>)
    ensures r.Some? ==> |r.value.rest| < |s|
  {
    var t := s[NonDigits(s)..];
    if t == [] then None
    else
      var n := DigitRun(t);
      Some(Reading(Saturated(DigitsValue(t[..n])), t[n..]))
  }

  /** All numbers in s. */
  function Numbers(s: Text): seq<nat>
    decreases |s|
  {
    match ReadNumber(s)
    case None => []
    case Some(r) => [r.value] + Numbers(r.rest)
  }

  /** The first difference of two number lists, as far as both go. */
  function NumberOrder(xs: seq<nat>, ys: seq<nat>): int {
    if xs == [] || ys == [] then 0
    else if xs[0] < ys[0] then -1
    else if xs[0] > ys[0] then 1
    else NumberOrder(xs[1..], ys[1..])
  }

  /** The sign of compare_versions: numbers first, then the bytes; NULL is least. */
  function CompareVersions(a: Option<Text>, b: Option<Text>): int {
    if a == None then (if b == None then 0 else -1)
    else if b == None then 1
    else
      var c := NumberOrder(Numbers(a.value), Numbers(b.value));
      if c != 0 then c else StrCmp(a.value, b.value)
  }

  // ---------------------------------------------------------------- the loop

  lemma NonDigitsRound(s: Text, i: nat)
    requires i <= |s|
    ensures NonDigits(s[i..]) == if i == |s| || IsDigit(s[i]) then 0 else 1 + NonDigits(s[i + 1..])
  {
    if i < |s| {
      assert s[i..][1..] == s[i + 1..];
    }
  }

  /** What is read from offset p on when the digits start at `from`. */
  lemma ReadFrom(s: Text, p: nat, from: nat)
    requires p <= from <= |s| && NonDigits(s[p..]) == from - p
    ensures ReadNumber(s[p..]).Some? <==> from < |s|
    ensures var n := DigitRun(s[from..]);
            from < |s| ==> ReadNumber(s[p..]) == Some(Reading(Saturated(DigitsValue(s[from..][..n])), s[from + n..]))
  {
    hide NonDigits, DigitRun, DigitsValue;
    assert s[p..][from - p..] == s[from..];
    assert s[from..][DigitRun(s[from..])..] == s[from + DigitRun(s[from..])..];
  }

  /** read_version_number over a cursor. */
  method ReadVersionNumber(s: Text, p: nat) returns (found: bool, value: nat, next: nat)
    requires p <= |s|
    ensures p <= next <= |s|
    ensures found <==> ReadNumber(s[p..]).Some?
    ensures found ==> ReadNumber(s[p..]) == Some(Reading(value, s[next..])) && p < next
  {
    hide DigitsValue, DigitRun, NonDigits, ReadNumber;
    found, value, next := false, 0, p;
    while next < |s| && !IsDigit(s[next])
      invariant p <= next <= |s| && NonDigits(s[p..]) == next - p + NonDigits(s[next..])
    {
      NonDigitsRound(s, next);
      next := next + 1;
    }
    NonDigitsRound(s, next);
    ReadFrom(s, p, next);
    if next == |s| {
      return;
    }
    var n := DigitRun(s[next..]);
    found, value := true, Saturated(DigitsValue(s[next..][..n]));
    next := next + n;
  }

  method CompareVersionsLoop(a: Option<Text>, b: Option<Text>) returns (r: int)
    ensures r == CompareVersions(a, b)
  {
    hide ReadNumber, StrCmp;
    if a.None? && b.None? {
      return 0;
    }
    if a.None? {
      return -1;
    }
    if b.None? {
      return 1;
    }
    var s, t := a.value, b.value;
    var p, q := 0, 0;
    assert s[0..] == s && t[0..] == t;
    while true
      invariant p <= |s| && q <= |t|
      invariant NumberOrder(Numbers(s), Numbers(t)) == NumberOrder(Numbers(s[p..]), Numbers(t[q..]))
      decreases |s| - p
    {
      var ha, va, p' := ReadVersionNumber(s, p);
      var hb, vb, q' := ReadVersionNumber(t, q);
      if !ha || !hb {
        break;
      }
      FirstNumber(s[p..], Reading(va, s[p'..]));
      FirstNumber(t[q..], Reading(vb, t[q'..]));
      if va < vb {
        return -1;
      }
      if va > vb {
        return 1;
      }
      p, q := p', q';
    }
    r := StrCmp(s, t);
  }

  lemma FirstNumber(s: Text, r: Reading)
    requires ReadNumber(s) == Some(r)
    ensures Numbers(s) == [r.value] + Numbers(r.rest) && Numbers(s)[1..] == Numbers(r.rest)
  {
    hide ReadNumber;
  }

  // ---------------------------------------------------------------- the order it should be

  /** Lexicographic order of number lists, a proper prefix being smaller. */
  function Lex(xs: seq<nat>, ys: seq<nat>): int {
    if xs == [] then (if ys == [] then 0 else -1)
    else if ys == [] then 1
    else if xs[0] != ys[0] then (if xs[0] < ys[0] then -1 else 1)
    else Lex(xs[1..], ys[1..])
  }

  predicate ProperPrefix(xs: seq<nat>, ys: seq<nat>) { |xs| < |ys| && xs == ys[..|xs|] }

  /** The total order on version strings: by their number lists, then by their bytes. */
  function VersionOrder(a: Text, b: Text): int {
    var c := Lex(Numbers(a), Numbers(b));
    if c != 0 then c else StrCmp(a, b)
  }

  /** When the numbers of one version are used up first, the bytes decide in its favour. */
  predicate Regular(a: Text, b: Text) {
    (ProperPrefix(Numbers(a), Numbers(b)) ==> StrCmp(a, b) < 0)
    && (ProperPrefix(Numbers(b), Numbers(a)) ==> StrCmp(a, b) > 0)
  }

  lemma {:induction false} NumberOrderIsLex(xs: seq<nat>, ys: seq<nat>)
    ensures Lex(xs, ys) ==
            if NumberOrder(xs, ys) != 0 then NumberOrder(xs, ys)
            else if |xs| < |ys| then -1 else if |xs| > |ys| then 1 else 0
    ensures NumberOrder(xs, ys) == 0 && |xs| < |ys| <==> ProperPrefix(xs, ys)
    ensures NumberOrder(xs, ys) == 0 && |ys| < |xs| <==> ProperPrefix(ys, xs)
    ensures Lex(xs, ys) == 0 <==> xs == ys
  {
    if xs != [] && ys != [] {
      assert xs == [xs[0]] + xs[1..] && ys == [ys[0]] + ys[1..];
      if xs[0] == ys[0] {
        NumberOrderIsLex(xs[1..], ys[1..]);
        assert |xs| < |ys| ==> ys[..|xs|] == [ys[0]] + ys[1..][..|xs| - 1];
        assert |ys| < |xs| ==> xs[..|ys|] == [xs[0]] + xs[1..][..|ys| - 1];
      } else {
        assert |xs| < |ys| ==> ys[..|xs|][0] == ys[0];
        assert |ys| < |xs| ==> xs[..|ys|][0] == xs[0];
      }
    }
  }

  /** compare_versions follows the total order exactly on the regular pairs. */
  lemma CompareIsVersionOrder(a: Text, b: Text)
    ensures CompareVersions(Some(a), Some(b)) == VersionOrder(a, b) <==> Regular(a, b)
  {
    hide Numbers, StrCmp, NumberOrder, Lex, ProperPrefix;
    NumberOrderIsLex(Numbers(a), Numbers(b));
    StrCmpSign(a, b);
  }

  lemma {:induction false} StrCmpSign(a: Text, b: Text)
    ensures -1 <= StrCmp(a, b) <= 1 && (StrCmp(a, b) == 0 <==> a == b) && StrCmp(b, a) == -StrCmp(a, b)
  {
    if a != [] && b != [] {
      assert a == [a[0]] + a[1..] && b == [b[0]] + b[1..];
      StrCmpSign(a[1..], b[1..]);
    }
  }

  lemma {:induction false} StrCmpTransitive(a: Text, b: Text, c: Text)
    requires StrCmp(a, b) <= 0 && StrCmp(b, c) <= 0
    ensures StrCmp(a, c) <= 0
    ensures StrCmp(a, b) < 0 || StrCmp(b, c) < 0 ==> StrCmp(a, c) < 0
  {
    if a != [] && b != [] && c != [] {
      if a[0] == b[0] == c[0] {
        StrCmpTransitive(a[1..], b[1..], c[1..]);
      }
    }
  }

  lemma {:induction false} LexSign(xs: seq<nat>, ys: seq<nat>)
    ensures -1 <= Lex(xs, ys) <= 1 && Lex(ys, xs) == -Lex(xs, ys)
  {
    if xs != [] && ys != [] {
      LexSign(xs[1..], ys[1..]);
    }
  }

  lemma {:induction false} LexTransitive(xs: seq<nat>, ys: seq<nat>, zs: seq<nat>)
    requires Lex(xs, ys) <= 0 && Lex(ys, zs) <= 0
    ensures Lex(xs, zs) <= 0
    ensures Lex(xs, ys) < 0 || Lex(ys, zs) < 0 ==> Lex(xs, zs) < 0
  {
    if xs != [] && ys != [] && zs != [] {
      if xs[0] == ys[0] == zs[0] {
        LexTransitive(xs[1..], ys[1..], zs[1..]);
      }
    }
  }

  /** NULL, or a version that forms a regular pair with the other. */
  predicate RegularPair(a: Option<Text>, b: Option<Text>) {
    a.Some? && b.Some? ==> Regular(a.value, b.value)
  }

  lemma CompareAntisymmetric(a: Option<Text>, b: Option<Text>)
    ensures CompareVersions(b, a) == -CompareVersions(a, b)
    ensures CompareVersions(a, b) == 0 <==> a == b
  {
    if a.Some? && b.Some? {
      NumberOrderIsLex(Numbers(a.value), Numbers(b.value));
      NumberOrderIsLex(Numbers(b.value), Numbers(a.value));
      LexSign(Numbers(a.value), Numbers(b.value));
      hide Numbers, StrCmp, NumberOrder, Lex;
      StrCmpSign(a.value, b.value);
    }
  }

  lemma VersionOrderTransitive(a: Text, b: Text, c: Text)
    requires VersionOrder(a, b) <= 0 && VersionOrder(b, c) <= 0
    ensures VersionOrder(a, c) <= 0
    ensures VersionOrder(a, b) < 0 || VersionOrder(b, c) < 0 ==> VersionOrder(a, c) < 0
  {
    hide Numbers, StrCmp, Lex;
    var xs, ys, zs := Numbers(a), Numbers(b), Numbers(c);
    LexSign(xs, ys);
    LexSign(ys, zs);
    LexTransitive(xs, ys, zs);
    if Lex(xs, ys) == 0 && Lex(ys, zs) == 0 {
      StrCmpTransitive(a, b, c);
      LexZero(xs, ys);
      LexZero(ys, zs);
      LexZero(xs, zs);
    }
  }

  lemma VersionOrderSign(a: Text, b: Text)
    ensures -1 <= VersionOrder(a, b) <= 1 && VersionOrder(b, a) == -VersionOrder(a, b)
    ensures VersionOrder(a, b) == 0 <==> a == b
  {
    hide Numbers, StrCmp, Lex;
    LexSign(Numbers(a), Numbers(b));
    StrCmpSign(a, b);
    LexZero(Numbers(a), Numbers(b));
  }

  /** On an irregular pair the comparison is the total order turned round. */
  lemma IrregularTurns(a: Text, b: Text)
    ensures CompareVersions(Some(a), Some(b)) == if Regular(a, b) then VersionOrder(a, b) else -VersionOrder(a, b)
  {
    hide Numbers, StrCmp, NumberOrder, Lex, ProperPrefix;
    NumberOrderIsLex(Numbers(a), Numbers(b));
    StrCmpSign(a, b);
  }

  lemma IrregularChain(x: Text, y: Text, z: Text)
    requires VersionOrder(x, y) < 0 && VersionOrder(y, z) < 0 && !Regular(x, y) && !Regular(y, z)
    ensures !Regular(x, z)
  {
    hide Numbers, StrCmp, Lex;
    NumberOrderIsLex(Numbers(x), Numbers(y));
    NumberOrderIsLex(Numbers(y), Numbers(z));
    LexSign(Numbers(x), Numbers(y));
    LexSign(Numbers(y), Numbers(z));
    StrCmpSign(x, y);
    StrCmpSign(y, z);
    StrCmpSign(x, z);
    StrCmpSign(z, x);
    StrCmpTransitive(z, y, x);
  }

  /** x, y, z stand in the total order, and only the outer pair is irregular. */
  predicate OuterIrregular(x: Option<Text>, y: Option<Text>, z: Option<Text>) {
    x.Some? && y.Some? && z.Some? && VersionOrder(x.value, y.value) < 0 && VersionOrder(y.value, z.value) < 0
    && Regular(x.value, y.value) && Regular(y.value, z.value) && !Regular(x.value, z.value)
  }

  /** Two of the three versions lie around the third and only they are irregular, in the cyclic order a, b, c. */
  predicate Breaks(a: Option<Text>, b: Option<Text>, c: Option<Text>) {
    OuterIrregular(a, b, c) || OuterIrregular(b, c, a) || OuterIrregular(c, a, b)
  }

  lemma Symmetric(a: Text, b: Text)
    ensures Regular(a, b) == Regular(b, a)
    ensures CompareVersions(Some(b), Some(a)) == -CompareVersions(Some(a), Some(b))
  {
    hide Numbers, StrCmp, NumberOrder, Lex, CompareVersions;
    StrCmpSign(a, b);
    CompareAntisymmetric(Some(a), Some(b));
  }

  /** Of three versions in the total order the comparison makes a cycle upwards exactly when the outer pair alone is
      irregular, and a cycle downwards never. */
  lemma SortedCycle(x: Text, y: Text, z: Text)
    requires VersionOrder(x, y) < 0 && VersionOrder(y, z) < 0
    ensures CompareVersions(Some(x), Some(y)) < 0 && CompareVersions(Some(y), Some(z)) < 0
            && CompareVersions(Some(z), Some(x)) < 0
            <==> OuterIrregular(Some(x), Some(y), Some(z))
    ensures !(CompareVersions(Some(y), Some(x)) < 0 && CompareVersions(Some(x), Some(z)) < 0
              && CompareVersions(Some(z), Some(y)) < 0)
  {
    hide VersionOrder, CompareVersions, Regular;
    IrregularTurns(x, y);
    IrregularTurns(y, z);
    IrregularTurns(x, z);
    Symmetric(x, y);
    Symmetric(y, z);
    Symmetric(x, z);
    VersionOrderTransitive(x, y, z);
    if !Regular(x, y) && !Regular(y, z) {
      IrregularChain(x, y, z);
    }
  }

  lemma CycleExactly(a: Text, b: Text, c: Text)
    requires a != b && b != c && a != c
    ensures CompareVersions(Some(a), Some(b)) < 0 && CompareVersions(Some(b), Some(c)) < 0
            && CompareVersions(Some(c), Some(a)) < 0
            <==> Breaks(Some(a), Some(b), Some(c))
  {
    hide VersionOrder, CompareVersions, Regular;
    VersionOrderSign(a, b);
    VersionOrderSign(b, c);
    VersionOrderSign(a, c);
    if VersionOrder(a, b) < 0 {
      if VersionOrder(b, c) < 0 {
        VersionOrderTransitive(a, b, c);
        SortedCycle(a, b, c);
      } else if VersionOrder(a, c) < 0 {
        SortedCycle(a, c, b);
      } else {
        SortedCycle(c, a, b);
      }
    } else if VersionOrder(a, c) < 0 {
      SortedCycle(b, a, c);
    } else if VersionOrder(b, c) < 0 {
      SortedCycle(b, c, a);
    } else {
      SortedCycle(c, b, a);
    }
  }

  /** From a <= b and b <= c it follows that a <= c, except exactly when one of the three pairs is irregular and
      lies around the third version in the cyclic order a, b, c.  NULL never breaks it. */
  lemma TransitiveExactly(a: Option<Text>, b: Option<Text>, c: Option<Text>)
    requires CompareVersions(a, b) <= 0 && CompareVersions(b, c) <= 0
    ensures CompareVersions(a, c) <= 0 <==> !Breaks(a, b, c)
    ensures CompareVersions(a, c) <= 0 && (CompareVersions(a, b) < 0 || CompareVersions(b, c) < 0) ==>
              CompareVersions(a, c) < 0
  {
    CompareAntisymmetric(a, b);
    CompareAntisymmetric(b, c);
    CompareAntisymmetric(a, c);
    if a.Some? && b.Some? && c.Some? {
      hide VersionOrder, CompareVersions, Regular;
      VersionOrderSign(a.value, b.value);
      VersionOrderSign(b.value, c.value);
      VersionOrderSign(a.value, c.value);
      if a != b && b != c && a != c {
        CycleExactly(a.value, b.value, c.value);
      }
    }
  }

  /** On pairwise regular versions compare_versions is transitive; with CompareAntisymmetric it is a total
      order there, with NULL least. */
  lemma CompareTransitive(a: Option<Text>, b: Option<Text>, c: Option<Text>)
    requires RegularPair(a, b) && RegularPair(b, c) && RegularPair(a, c)
    requires CompareVersions(a, b) <= 0 && CompareVersions(b, c) <= 0
    ensures CompareVersions(a, c) <= 0
    ensures CompareVersions(a, b) < 0 || CompareVersions(b, c) < 0 ==> CompareVersions(a, c) < 0
  {
    hide VersionOrder, CompareVersions, Regular;
    TransitiveExactly(a, b, c);
    if a.Some? && b.Some? && c.Some? {
      Symmetric(a.value, b.value);
      Symmetric(b.value, c.value);
      Symmetric(a.value, c.value);
    }
  }

  lemma LexZero(xs: seq<nat>, ys: seq<nat>)
    ensures Lex(xs, ys) == 0 <==> xs == ys
  {
    NumberOrderIsLex(xs, ys);
  }

  // ---------------------------------------------------------------- canonical versions

  /** The components of a version that strtoll reads without saturating. */
  type Component = n: int | 0 <= n <= LLONG_MAX

  /** A canonical version: decimal numbers without leading zeros, separated by dots. */
  function Dotted(cs: seq<Component>): Text {
    if cs == [] then []
    else if |cs| == 1 then Digits(cs[0])
    else Digits(cs[0]) + [DOT] + Dotted(cs[1..])
  }

  lemma {:induction false} NumbersOfDotted(cs: seq<Component>)
    ensures Numbers(Dotted(cs)) == cs
  {
    hide Numbers;
    NoNumbers();
    if cs != [] {
      var rest := if |cs| == 1 then [] else [DOT] + Dotted(cs[1..]);
      assert Dotted(cs) == Digits(cs[0]) + rest;
      NumbersOfDigits(cs[0], rest);
      if |cs| > 1 {
        NumbersOfDotted(cs[1..]);
        SkipDot(Dotted(cs[1..]));
      }
      assert cs == [cs[0]] + cs[1..];
    }
  }

  lemma NoNumbers()
    ensures Numbers([]) == []
  {
  }

  lemma NumbersOfDigits(n: Component, rest: Text)
    requires rest == [] || !IsDigit(rest[0])
    ensures Numbers(Digits(n) + rest) == [n] + Numbers(rest)
  {
    hide Numbers;
    DigitsValueOfDigits(n);
    NumbersOfRun(Digits(n), rest);
  }

  lemma NumbersOfRun(d: Text, rest: Text)
    requires d != [] && AllDigits(d) && (rest == [] || !IsDigit(rest[0]))
    ensures Numbers(d + rest) == [Saturated(DigitsValue(d))] + Numbers(rest)
  {
    var s := d + rest;
    assert s[0] == d[0];
    assert s[NonDigits(s)..] == s;
    DigitRunThen(d, rest);
    assert s[..|d|] == d && s[|d|..] == rest;
    hide DigitsValue, DigitRun;
    assert ReadNumber(s) == Some(Reading(Saturated(DigitsValue(d)), rest));
  }

  lemma {:induction false} DigitRunThen(d: Text, rest: Text)
    requires AllDigits(d) && (rest == [] || !IsDigit(rest[0]))
    ensures DigitRun(d + rest) == |d|
  {
    if d != [] {
      assert (d + rest)[1..] == d[1..] + rest;
      DigitRunThen(d[1..], rest);
    }
  }

  lemma SkipDot(t: Text)
    ensures Numbers([DOT] + t) == Numbers(t)
  {
    var s := [DOT] + t;
    assert s[1..] == t;
    assert NonDigits(s) == 1 + NonDigits(t);
    assert s[NonDigits(s)..] == t[NonDigits(t)..];
    assert ReadNumber(s) == ReadNumber(t);
  }

  lemma {:induction false} DottedPrefix(xs: seq<Component>, ys: seq<Component>)
    requires xs != [] && |xs| < |ys| && xs == ys[..|xs|]
    ensures |Dotted(xs)| < |Dotted(ys)| && Dotted(ys)[..|Dotted(xs)|] == Dotted(xs)
  {
    if |xs| == 1 {
      assert xs[0] == ys[0];
    } else {
      assert xs[0] == ys[0] && xs[1..] == ys[1..][..|xs| - 1];
      DottedPrefix(xs[1..], ys[1..]);
      var head := Digits(xs[0]) + [DOT];
      assert Dotted(xs) == head + Dotted(xs[1..]) && Dotted(ys) == head + Dotted(ys[1..]);
    }
  }

  lemma {:induction false} StrCmpOfPrefix(a: Text, b: Text)
    requires |a| < |b| && b[..|a|] == a
    ensures StrCmp(a, b) == -1
  {
    if a != [] {
      assert b[..|a|][0] == b[0] && b[1..][..|a| - 1] == b[..|a|][1..];
      StrCmpOfPrefix(a[1..], b[1..]);
    }
  }

  /** On canonical versions the comparison is the lexicographic order of the components. */
  lemma CompareCanonical(xs: seq<Component>, ys: seq<Component>)
    requires xs != [] && ys != []
    ensures Regular(Dotted(xs), Dotted(ys))
    ensures CompareVersions(Some(Dotted(xs)), Some(Dotted(ys))) == Lex(xs, ys)
  {
    hide Numbers, StrCmp, NumberOrder, Lex, Dotted;
    NumbersOfDotted(xs);
    NumbersOfDotted(ys);
    StrCmpSign(Dotted(xs), Dotted(ys));
    if ProperPrefix(xs, ys) {
      DottedPrefix(xs, ys);
      StrCmpOfPrefix(Dotted(xs), Dotted(ys));
    }
    if ProperPrefix(ys, xs) {
      DottedPrefix(ys, xs);
      StrCmpOfPrefix(Dotted(ys), Dotted(xs));
    }
    CompareIsVersionOrder(Dotted(xs), Dotted(ys));
    LexZero(xs, ys);
  }

  /** "01.5" < "1" < "1.3", yet "01.5" > "1.3": on arbitrary strings the comparison is not transitive. */
  lemma NotTransitive()
    ensures var a: Text, b: Text, c: Text := [48, 49, 46, 53], [49], [49, 46, 51];
            CompareVersions(Some(a), Some(b)) < 0 && CompareVersions(Some(b), Some(c)) < 0
            && CompareVersions(Some(a), Some(c)) > 0 && !Regular(a, b)
  {
    hide Numbers;
    NoNumbers();
    NumbersOfDigits(5, []);
    NumbersOfDigits(3, []);
    NumbersOfDigits(1, []);
    SkipDot([53]);
    SkipDot([51]);
    NumbersOfDigits(1, [46, 51]);
    assert DigitsValue([48]) == 0 && [48, 49][..1] == [48];
    NumbersOfRun([48, 49], [46, 53]);
    assert [48, 49] + [46, 53] == [48, 49, 46, 53] && [49] + [46, 51] == [49, 46, 51];
    assert [DOT] + [53] == [46, 53] && [DOT] + [51] == [46, 51];
    assert Digits(5) + [] == [53] && Digits(3) + [] == [51] && Digits(1) + [] == [49];
    assert Numbers([53]) == [5] + Numbers([]) && Numbers([51]) == [3] + Numbers([]);
    var ns: seq<nat>, ms: seq<nat>, ks: seq<nat> := [1, 5], [1], [1, 3];
    assert Numbers([48, 49, 46, 53]) == ns && Numbers([49]) == ms && Numbers([49, 46, 51]) == ks;
  }

  // ---------------------------------------------------------------- on the bytes of the two versions

  /** A run of decimal digits with the bytes before it. */
  datatype Run = Run(gap: Text, digits: Text)

  function RunsText(rs: seq<Run>, tail: Text): Text {
    if rs == [] then tail else rs[0].gap + (rs[0].digits + RunsText(rs[1..], tail))
  }

  /** The gaps hold no digits, and the runs are as long as they can be. */
  predicate AreRuns(rs: seq<Run>, tail: Text) {
    (forall k :: 0 <= k < |tail| ==> !(48 <= tail[k] <= 57))
    && (forall i :: 0 <= i < |rs| ==> IsRun(rs[i]))
    && forall i :: 0 < i < |rs| ==> rs[i].gap != []
  }

  predicate IsRun(r: Run) {
    r.digits != [] && (forall k :: 0 <= k < |r.digits| ==> 48 <= r.digits[k] <= 57)
    && forall k :: 0 <= k < |r.gap| ==> !(48 <= r.gap[k] <= 57)
  }

  lemma {:induction false} GapSkipped(gap: Text, rest: Text)
    requires forall k :: 0 <= k < |gap| ==> !IsDigit(gap[k])
    requires rest != [] ==> IsDigit(rest[0])
    ensures NonDigits(gap + rest) == |gap|
  {
    if gap == [] {
      assert gap + rest == rest;
    } else {
      assert (gap + rest)[1..] == gap[1..] + rest;
      GapSkipped(gap[1..], rest);
    }
  }

  lemma {:induction false} RunRead(digits: Text, rest: Text)
    requires AllDigits(digits) && (rest != [] ==> !IsDigit(rest[0]))
    ensures DigitRun(digits + rest) == |digits|
  {
    if digits == [] {
      assert digits + rest == rest;
    } else {
      assert (digits + rest)[1..] == digits[1..] + rest;
      RunRead(digits[1..], rest);
    }
  }

  /** The number that a run of digits is read as. */
  predicate IsReadAs(digits: Text, n: nat) {
    AllDigits(digits)
    && n == if DigitsValue(digits) <= 9_223_372_036_854_775_807 then DigitsValue(digits) else 9_223_372_036_854_775_807
  }

  lemma ReadRun(r: Run, rest: Text) returns (n: nat)
    requires IsRun(r) && (rest != [] ==> !IsDigit(rest[0]))
    ensures IsReadAs(r.digits, n) && ReadNumber(r.gap + (r.digits + rest)) == Some(Reading(n, rest))
  {
    hide NonDigits, DigitRun, DigitsValue;
    var s, t := r.gap + (r.digits + rest), r.digits + rest;
    GapSkipped(r.gap, t);
    RunRead(r.digits, rest);
    assert s[|r.gap|..] == t && t[..|r.digits|] == r.digits && t[|r.digits|..] == rest;
    n := Saturated(DigitsValue(r.digits));
  }

  /** The runs of digits of a text are read as the numbers they write, cut at 2^63 - 1. */
  lemma {:induction false} NumbersOfRuns(rs: seq<Run>, tail: Text)
    requires AreRuns(rs, tail)
    ensures var ns := Numbers(RunsText(rs, tail));
            |ns| == |rs| && forall i :: 0 <= i < |rs| ==> IsReadAs(rs[i].digits, ns[i])
  {
    hide IsReadAs, Numbers, ReadNumber, IsRun;
    if rs == [] {
      NoDigits(tail);
    } else {
      var rest := RunsText(rs[1..], tail);
      NumbersOfRuns(rs[1..], tail);
      RunsStart(rs[1..], tail);
      var n := ReadRun(rs[0], rest);
      FirstNumber(RunsText(rs, tail), Reading(n, rest));
    }
  }

  lemma RunsStart(rs: seq<Run>, tail: Text)
    requires AreRuns(rs, tail) && (rs != [] ==> rs[0].gap != [])
    ensures var t := RunsText(rs, tail); t != [] ==> !IsDigit(t[0])
  {
  }

  lemma NoDigits(tail: Text)
    requires forall k :: 0 <= k < |tail| ==> !IsDigit(tail[k])
    ensures Numbers(tail) == []
  {
    assert tail + [] == tail;
    GapSkipped(tail, []);
  }

  lemma RunAdded(r: Run, rs: seq<Run>, tail: Text)
    requires IsRun(r) && AreRuns(rs, tail) && (rs != [] ==> rs[0].gap != [])
    ensures AreRuns([r] + rs, tail) && RunsText([r] + rs, tail) == r.gap + (r.digits + RunsText(rs, tail))
  {
    hide IsRun;
    assert ([r] + rs)[1..] == rs;
  }

  /** Every text is one of runs. */
  lemma {:induction false} RunsOf(s: Text) returns (rs: seq<Run>, tail: Text)
    ensures AreRuns(rs, tail) && RunsText(rs, tail) == s
    ensures rs != [] && s != [] && !IsDigit(s[0]) ==> rs[0].gap != []
    decreases |s|
  {
    hide DigitRun, NonDigits, AreRuns, RunsText;
    var n := NonDigits(s);
    GapHasNoDigits(s);
    if n == |s| {
      rs, tail := [], s;
      NoRuns(tail);
    } else {
      var t := s[n..];
      var m := DigitRun(t);
      var more;
      more, tail := RunsOf(t[m..]);
      var r := Run(s[..n], t[..m]);
      assert s == r.gap + (r.digits + t[m..]);
      assert t[m..] != [] ==> t[m..][0] == t[m];
      NothingBehind(more, tail);
      RunAdded(r, more, tail);
      rs := [r] + more;
    }
  }

  lemma NoRuns(tail: Text)
    requires forall k :: 0 <= k < |tail| ==> !IsDigit(tail[k])
    ensures AreRuns([], tail) && RunsText([], tail) == tail
  {
  }

  lemma NothingBehind(rs: seq<Run>, tail: Text)
    ensures AreRuns(rs, tail) && RunsText(rs, tail) == [] ==> rs == []
  {
  }

  lemma {:induction false} GapHasNoDigits(s: Text)
    ensures forall k :: 0 <= k < NonDigits(s) ==> !IsDigit(s[k])
  {
    if s != [] && !IsDigit(s[0]) {
      GapHasNoDigits(s[1..]);
      forall k | 0 <= k < NonDigits(s) ensures !IsDigit(s[k]) {
        assert k > 0 ==> s[k] == s[1..][k - 1];
      }
    }
  }

  /** NULL is less than every version. */
  lemma NullIsLeast(v: Text)
    ensures CompareVersions(None, Some(v)) < 0 && CompareVersions(Some(v), None) > 0 && CompareVersions(None, None) == 0
  {
  }

  /** The first pair of numbers that differ decides. */
  lemma NumbersDecide(a: Text, b: Text, k: nat)
    requires var xs, ys := Numbers(a), Numbers(b);
             k < |xs| && k < |ys| && xs[k] < ys[k] && forall i :: 0 <= i < k ==> xs[i] == ys[i]
    ensures CompareVersions(Some(a), Some(b)) < 0
  {
    hide Numbers, StrCmp;
    FirstSmaller(Numbers(a), Numbers(b), k);
  }

  lemma {:induction false} FirstSmaller(xs: seq<nat>, ys: seq<nat>, k: nat)
    requires k < |xs| && k < |ys| && xs[k] < ys[k] && forall i :: 0 <= i < k ==> xs[i] == ys[i]
    ensures NumberOrder(xs, ys) < 0
  {
    if k > 0 {
      FirstSmaller(xs[1..], ys[1..], k - 1);
    }
  }

  predicate Agree(xs: seq<nat>, ys: seq<nat>) { forall i :: 0 <= i < |xs| && i < |ys| ==> xs[i] == ys[i] }

  /** If the numbers agree as far as both versions have any, the first pair of bytes that differ decides, an end
      counting as less than any byte. */
  lemma BytesDecide(a: Text, b: Text, k: nat)
    requires Agree(Numbers(a), Numbers(b))
    requires k <= |a| && k < |b| && (k == |a| || a[k] < b[k]) && forall i :: 0 <= i < k ==> a[i] == b[i]
    ensures CompareVersions(Some(a), Some(b)) < 0
  {
    hide Numbers;
    NumbersAgree(Numbers(a), Numbers(b));
    FirstByte(a, b, k);
    hide StrCmp, NumberOrder;
  }

  lemma {:induction false} NumbersAgree(xs: seq<nat>, ys: seq<nat>)
    requires Agree(xs, ys)
    ensures NumberOrder(xs, ys) == 0
  {
    if xs != [] && ys != [] {
      NumbersAgree(xs[1..], ys[1..]);
    }
  }

  lemma {:induction false} FirstByte(a: Text, b: Text, k: nat)
    requires k <= |a| && k < |b| && (k == |a| || a[k] < b[k]) && forall i :: 0 <= i < k ==> a[i] == b[i]
    ensures StrCmp(a, b) < 0
  {
    if k > 0 {
      FirstByte(a[1..], b[1..], k - 1);
    }
  }
}
