/** Which numbers the parser of 3rdparty/cjson/cJSON.c reads: the longest one that stands at the offset, with its
    value in decimal notation. */
module JsonNumeral {
  import opened Bytes
  import opened Decimals
  import opened Json
  import opened JsonNumber
  import opened JsonGrammar
  import opened JsonSyntax

  // ---------------------------------------------------------------- decimal notation

  lemma {:induction false} WholeOfConcat(a: Text, b: Text)
    ensures WholeValue(a + b) == WholeValue(a) * Pow10(|b|) + WholeValue(b)
    decreases |a|
  {
    if a == [] {
      assert a + b == b;
    } else {
      assert (a + b)[1..] == a[1..] + b;
      WholeOfConcat(a[1..], b);
      PowerOfSum(|a| - 1, |b|);
      Regroup(DigitValue(a[0]), Pow10(|a| - 1), WholeValue(a[1..]), Pow10(|b|));
    }
  }

  lemma {:induction false} PowerOfSum(m: nat, n: nat)
    ensures Pow10(m + n) == Pow10(m) * Pow10(n)
  {
    if m > 0 {
      PowerOfSum(m - 1, n);
    }
  }

  lemma Regroup(d: int, p: int, w: int, q: int)
    ensures d * (p * q) + w * q == (d * p + w) * q
  {
  }

  lemma {:induction false} DigitsAreWhole(t: Text)
    requires AllDigits(t)
    ensures DigitsValue(t) == WholeValue(t)
  {
    if t != [] {
      var init, last := t[..|t| - 1], t[|t| - 1..];
      DigitsAreWhole(init);
      assert init + last == t;
      WholeOfConcat(init, last);
      assert Pow10(1) == 10 && Pow10(0) == 1 && WholeValue(last[1..]) == 0;
    }
  }

  lemma {:induction false} FractionOfDigits(t: Text)
    ensures WholeValue(t) as real == FractionValue(t) * Pow10(|t|) as real
  {
    hide Pow10;
    PowersOfTen(|t|);
    if t != [] {
      FractionOfDigits(t[1..]);
      Tenth(DigitValue(t[0]), WholeValue(t[1..]), Pow10(|t| - 1), FractionValue(t[1..]));
    }
  }

  lemma PowersOfTen(k: nat)
    ensures Pow10(0) == 1 && (k > 0 ==> Pow10(k) == 10 * Pow10(k - 1))
  {
  }

  lemma Tenth(d: int, w: int, p: int, f: real)
    requires w as real == f * p as real
    ensures (d * p + w) as real == (d as real + f) / 10.0 * (10 * p) as real
  {
    var x, y := d as real + f, p as real;
    assert (d * p) as real == d as real * y;
    assert (10 * p) as real == 10.0 * y;
    Tenfold(x, y);
  }

  lemma Tenfold(x: real, y: real)
    ensures x / 10.0 * (10.0 * y) == x * y
  {
  }

  lemma {:induction false} ScaleIsTenTo(x: real, e: int)
    ensures Scale(x, e) == x * TenTo(e)
    decreases if e < 0 then -e else e
  {
    if e > 0 {
      ScaleIsTenTo(x * 10.0, e - 1);
    } else if e < 0 {
      ScaleIsTenTo(x / 10.0, e + 1);
    }
  }

  lemma {:induction false} TenToLess(e: int, k: nat)
    ensures TenTo(e) == TenTo(e - k) * Pow10(k) as real
    decreases k
  {
    if k > 0 {
      TenToLess(e, k - 1);
      assert TenTo(e - (k - 1)) == 10.0 * TenTo(e - k);
      assert Pow10(k) as real == 10.0 * Pow10(k - 1) as real;
    }
  }

  /** The digits without their point, and the exponent lowered by the digits behind it. */
  lemma Mantissa(whole: Text, fraction: Text, e: int)
    requires AllDigits(whole) && AllDigits(fraction)
    ensures Scale(DigitsValue(whole + fraction) as real, e - |fraction|) ==
            (WholeValue(whole) as real + FractionValue(fraction)) * TenTo(e)
  {
    hide Scale, DigitsValue, WholeValue, FractionValue, TenTo, Pow10;
    var k, m := |fraction|, DigitsValue(whole + fraction);
    ScaleIsTenTo(m as real, e - k);
    TenToLess(e, k);
    DigitsAreWhole(whole + fraction);
    WholeOfConcat(whole, fraction);
    FractionOfDigits(fraction);
    Moved(WholeValue(whole), WholeValue(fraction), FractionValue(fraction), Pow10(k), TenTo(e - k));
  }

  lemma Moved(w: int, v: int, f: real, p: int, t: real)
    requires v as real == f * p as real
    ensures (w * p + v) as real * t == (w as real + f) * (t * p as real)
  {
    assert (w * p) as real == w as real * p as real;
    Distributed(w as real, f, p as real, t);
  }

  lemma Distributed(w: real, f: real, p: real, t: real)
    ensures (w * p + f * p) * t == (w + f) * (t * p)
  {
  }

  // ---------------------------------------------------------------- the longest number

  function ExponentOf(t: Text, q: nat): (e: Exponent)
    requires q <= |t|
    ensures IsExponent(e)
  {
    if q == |t| || (t[q] != 69 && t[q] != 101) then NoExponent
    else
      var d := if q + 1 < |t| && (t[q + 1] == PLUS || t[q + 1] == MINUS) then q + 2 else q + 1;
      var n := DigitRun(t[d..]);
      if n == 0 then NoExponent else Exponent(t[q], t[q + 1..d], t[d..][..n])
  }

  /** The number at the start of t with as many bytes as possible. */
  function Longest(t: Text): Numeral {
    var start := if t != [] && t[0] == MINUS then 1 else 0;
    var whole := t[start..][..DigitRun(t[start..])];
    var p := start + |whole|;
    var point := p < |t| && t[p] == DOT;
    var fraction := if point then t[p + 1..][..DigitRun(t[p + 1..])] else [];
    Numeral(start == 1, whole, point, fraction, ExponentOf(t, if point then p + 1 + |fraction| else p))
  }

  lemma ExponentIs(t: Text, q: nat)
    requires q <= |t|
    ensures var e := ExponentOf(t, q);
            ExponentAt(t, q) == (ExponentValue(e), q + |ExponentText(e)|) && At(t, q, ExponentText(e))
  {
    hide *;
    ExponentIsRead(t, q);
    ExponentStands(t, q);
    AtSelf(t, q, q + |ExponentText(ExponentOf(t, q))|);
  }

  /** Where an exponent's digits start, and how many there are. */
  lemma ExponentParts(t: Text, q: nat) returns (d: nat, n: nat)
    requires q <= |t| && ExponentOf(t, q).Exponent?
    ensures q < d <= d + n <= |t| && n == DigitRun(t[d..]) > 0
    ensures ExponentOf(t, q) == Exponent(t[q], t[q + 1..d], t[d..][..n])
    ensures d == if q + 1 < |t| && (t[q + 1] == PLUS || t[q + 1] == MINUS) then q + 2 else q + 1
  {
    hide DigitRun;
    d := if q + 1 < |t| && (t[q + 1] == PLUS || t[q + 1] == MINUS) then q + 2 else q + 1;
    n := DigitRun(t[d..]);
  }

  lemma SignOf(t: Text, q: nat, d: nat)
    requires q < d <= |t| && d <= q + 2
    ensures t[q + 1..d] == [MINUS] <==> d == q + 2 && t[q + 1] == MINUS
  {
    if d == q + 2 {
      assert t[q + 1..d] == [t[q + 1]];
    }
  }

  lemma ExponentIsRead(t: Text, q: nat)
    requires q <= |t|
    ensures var e := ExponentOf(t, q); ExponentAt(t, q) == (ExponentValue(e), q + |ExponentText(e)|)
  {
    hide DigitRun, DigitsValue, WholeValue;
    if ExponentOf(t, q).Exponent? {
      var d, n := ExponentParts(t, q);
      hide ExponentOf;
      SignOf(t, q, d);
      DigitsAreWhole(t[d..][..n]);
    }
  }

  lemma ExponentStands(t: Text, q: nat)
    requires q <= |t|
    ensures var e := ExponentText(ExponentOf(t, q)); q + |e| <= |t| && t[q..q + |e|] == e
  {
    hide ExponentOf;
    if ExponentOf(t, q).Exponent? {
      var d, n := ExponentParts(t, q);
      JoinedParts(t, q, d, n);
    }
  }

  lemma AtSelf(t: Text, i: nat, j: nat)
    ensures i <= j <= |t| ==> At(t, i, t[i..j])
  {
  }

  lemma JoinedParts(t: Text, q: nat, d: nat, n: nat)
    requires q < d <= d + n <= |t|
    ensures [t[q]] + (t[q + 1..d] + t[d..][..n]) == t[q..d + n]
  {
  }

  lemma RunAtLeast(t: Text, d: nat, digits: Text)
    requires At(t, d, digits) && AllDigits(digits)
    ensures DigitRun(t[d..]) >= |digits| && t[d..][..|digits|] == digits
    ensures d + |digits| < |t| && !IsDigit(t[d + |digits|]) ==> DigitRun(t[d..]) == |digits|
  {
    hide DigitRun;
    assert forall k :: 0 <= k < |digits| ==> t[d..][k] == digits[k];
    assert d + |digits| < |t| ==> t[d..][|digits|] == t[d + |digits|];
  }

  /** Where the parts of an exponent stand. */
  lemma ExponentPlaces(t: Text, q: nat, e: Exponent)
    requires At(t, q, ExponentText(e)) && e.Exponent? && IsExponent(e)
    ensures var d := q + 1 + |e.sign|;
            d < |t| && t[q] == e.letter && t[q + 1..d] == e.sign && At(t, d, e.digits) && IsDigit(t[d])
            && (e.sign != [] <==> t[q + 1] == PLUS || t[q + 1] == MINUS)
  {
    AtConcat(t, q, [e.letter], e.sign + e.digits);
    AtConcat(t, q + 1, e.sign, e.digits);
    hide At;
    AtByte(t, q, [e.letter], 0);
    AtByte(t, q + 1, e.sign, 0);
    AtByte(t, q + 1 + |e.sign|, e.digits, 0);
    AtSlice(t, q + 1, e.sign);
  }

  lemma ExponentFound(t: Text, q: nat)
    requires q < |t| && (t[q] == 69 || t[q] == 101)
    requires DigitRun(t[if q + 1 < |t| && (t[q + 1] == PLUS || t[q + 1] == MINUS) then q + 2 else q + 1..]) > 0
    ensures ExponentOf(t, q).Exponent?
  {
    hide DigitRun;
  }

  /** No exponent at q is longer. */
  lemma ExponentCovers(t: Text, q: nat, e: Exponent)
    requires q <= |t| && At(t, q, ExponentText(e)) && IsExponent(e)
    ensures |ExponentText(e)| <= |ExponentText(ExponentOf(t, q))|
    ensures |ExponentText(e)| == |ExponentText(ExponentOf(t, q))| ==> e == ExponentOf(t, q)
  {
    hide DigitRun, At, ExponentOf;
    if e.Exponent? {
      ExponentPlaces(t, q, e);
      RunAtLeast(t, q + 1 + |e.sign|, e.digits);
      ExponentFound(t, q);
      var d, n := ExponentParts(t, q);
    }
  }

  lemma NumeralPlaces(t: Text, i: int, n: Numeral)
    requires At(t, i, NumeralText(n))
    ensures var start := i + if n.minus then 1 else 0;
            var p := start + |n.whole|;
            var q := p + (if n.point then 1 else 0) + |n.fraction|;
            At(t, start, n.whole) && At(t, q - |n.fraction|, n.fraction) && At(t, q, ExponentText(n.exponent))
            && i + |NumeralText(n)| == q + |ExponentText(n.exponent)| <= |t|
            && (n.minus ==> t[i] == MINUS) && (n.point ==> t[p] == DOT)
  {
    hide ExponentText, At;
    var sign, dot := if n.minus then [MINUS] else [], if n.point then [DOT] else [];
    var e := ExponentText(n.exponent);
    AtConcat(t, i, sign, n.whole + (dot + (n.fraction + e)));
    AtConcat(t, i + |sign|, n.whole, dot + (n.fraction + e));
    var p := i + |sign| + |n.whole|;
    AtConcat(t, p, dot, n.fraction + e);
    AtConcat(t, p + |dot|, n.fraction, e);
    AtByte(t, i, sign, 0);
    AtByte(t, p, dot, 0);
    AtFits(t, i, NumeralText(n));
  }

  lemma AtFits(t: Text, i: int, u: Text)
    ensures At(t, i, u) ==> 0 <= i && i + |u| <= |t|
  {
  }

  /** A numeral without the conditions on its length and on its first byte. */
  predicate HasParts(m: Numeral) {
    AllDigits(m.whole) && AllDigits(m.fraction) && (m.point || m.fraction == []) && IsExponent(m.exponent)
  }

  /** Where the exponent of the longest number starts. */
  function ExponentStart(m: Numeral): nat {
    (if m.minus then 1 else 0) + |m.whole| + (if m.point then 1 else 0) + |m.fraction|
  }

  lemma LongestParts(t: Text)
    ensures var m := Longest(t);
            var start := if m.minus then 1 else 0;
            var p, q := start + |m.whole|, ExponentStart(m);
            HasParts(m) && q <= |t| && m.exponent == ExponentOf(t, q)
            && |NumeralText(m)| == q + |ExponentText(m.exponent)|
            && (m.minus <==> t != [] && t[0] == MINUS) && t[..start] == (if m.minus then [MINUS] else [])
            && |m.whole| == DigitRun(t[start..]) && m.whole == t[start..][..|m.whole|] == t[start..p]
            && (m.point <==> p < |t| && t[p] == DOT) && (!m.point ==> m.fraction == [])
            && (m.point ==> |m.fraction| == DigitRun(t[p + 1..])
                            && m.fraction == t[p + 1..][..|m.fraction|] == t[p + 1..q])
  {
    hide DigitRun, ExponentText, ExponentOf, IsExponent;
  }

  lemma LongestStands(t: Text)
    ensures HasParts(Longest(t)) && At(t, 0, NumeralText(Longest(t)))
  {
    LongestParts(t);
    var m := Longest(t);
    hide DigitRun, ExponentText, At, ExponentOf, IsExponent, Longest, HasParts;
    var start := if m.minus then 1 else 0;
    var p, q := start + |m.whole|, ExponentStart(m);
    var dot, e := if m.point then [DOT] else [], ExponentText(m.exponent);
    ExponentIs(t, q);
    AtJoin(t, p + |dot|, m.fraction, e);
    AtJoin(t, p, dot, m.fraction + e);
    AtJoin(t, start, m.whole, dot + (m.fraction + e));
    AtJoin(t, 0, if m.minus then [MINUS] else [], m.whole + (dot + (m.fraction + e)));
  }

  /** u stands at i, in front of v. */
  lemma AtJoin(t: Text, i: nat, u: Text, v: Text)
    requires i + |u| <= |t| && t[i..i + |u|] == u && At(t, i + |u|, v)
    ensures At(t, i, u + v)
  {
    forall k | 0 <= k < |u + v| ensures t[i + k] == (u + v)[k] {
      if k < |u| {
        assert t[i..i + |u|][k] == u[k];
      } else {
        assert t[i + |u| + (k - |u|)] == v[k - |u|];
      }
    }
  }

  /** strtod's own arithmetic on the parts of the longest number. */
  lemma StrtodOnParts(t: Text)
    requires t != [] ==> t[0] != PLUS
    ensures var m := Longest(t);
            HasParts(m) && AllDigits(m.whole + m.fraction)
            && var x := Scale(DigitsValue(m.whole + m.fraction) as real, ExponentValue(m.exponent) - |m.fraction|);
               Strtod(t) == if m.whole == m.fraction == [] then None
                            else Some((if m.minus then -x else x, |NumeralText(m)|))
  {
    LongestParts(t);
    var m := Longest(t);
    hide DigitRun, ExponentText, ExponentOf, ExponentAt, Scale, DigitsValue, Longest, NumeralText;
    ExponentIs(t, ExponentStart(m));
    var start := if m.minus then 1 else 0;
    var p := start + |m.whole|;
    var digits := t[start..][..|m.whole|] + (if m.point then t[p + 1..][..|m.fraction|] else []);
    assert digits == m.whole + m.fraction;
    if m.whole != [] || m.fraction != [] {
      assert Strtod(t).value.1 == |NumeralText(m)|;
    }
  }

  lemma StrtodIsLongest(t: Text)
    requires t != [] ==> t[0] != PLUS
    ensures var m := Longest(t);
            Strtod(t) == if m.whole == m.fraction == [] then None else Some((NumeralValue(m), |NumeralText(m)|))
  {
    hide *;
    StrtodOnParts(t);
    ValueIs(Longest(t));
  }

  lemma ValueIs(m: Numeral)
    requires HasParts(m)
    ensures AllDigits(m.whole + m.fraction)
    ensures var x := Scale(DigitsValue(m.whole + m.fraction) as real, ExponentValue(m.exponent) - |m.fraction|);
            NumeralValue(m) == if m.minus then -x else x
  {
    hide Scale, DigitsValue, WholeValue, FractionValue, TenTo, ExponentValue;
    Mantissa(m.whole, m.fraction, ExponentValue(m.exponent));
  }

  /** No number at the start of t is longer. */
  lemma LongestCovers(t: Text, n: Numeral)
    requires IsNumeral(n) && At(t, 0, NumeralText(n))
    ensures var m := Longest(t);
            (m.whole != [] || m.fraction != []) && |NumeralText(n)| <= |NumeralText(m)|
            && (|NumeralText(n)| == |NumeralText(m)| ==> n == m)
  {
    LongestParts(t);
    var m := Longest(t);
    hide At, ExponentText, ExponentOf, DigitRun, IsExponent, Longest, NumeralText;
    NumeralPlaces(t, 0, n);
    StartsAlike(t, n);
    assert n.minus == m.minus;
    var start := if n.minus then 1 else 0;
    var p := start + |n.whole|;
    RunAtLeast(t, start, n.whole);
    NotDigitBehind(t, ExponentStart(n), n.exponent);
    if n.point {
      RunAtLeast(t, p + 1, n.fraction);
    }
    if ExponentStart(n) == ExponentStart(m) {
      ExponentCovers(t, ExponentStart(n), n.exponent);
    }
  }

  lemma StartsAlike(t: Text, n: Numeral)
    requires IsNumeral(n) && At(t, 0, NumeralText(n))
    ensures t != [] && (n.minus <==> t[0] == MINUS)
  {
    hide ExponentText;
    assert t[0] == NumeralText(n)[0];
  }

  lemma NotDigitBehind(t: Text, q: nat, e: Exponent)
    requires IsExponent(e) && At(t, q, ExponentText(e))
    ensures e.Exponent? ==> q < |t| && !IsDigit(t[q]) && t[q] != DOT
    ensures e.NoExponent? ==> ExponentText(e) == []
  {
    if e.Exponent? {
      assert t[q + 0] == ExponentText(e)[0];
    }
  }

  // ---------------------------------------------------------------- the parser's numbers

  /** The number n stands at offset i of s, and no longer one does. */
  ghost predicate Foremost(s: Text, i: nat, n: Numeral) {
    IsNumeral(n) && At(s, i, NumeralText(n))
    && forall m: Numeral :: IsNumeral(m) && At(s, i, NumeralText(m)) ==> |NumeralText(m)| <= |NumeralText(n)|
  }

  lemma NumeralBytes(n: Numeral, k: nat)
    requires HasParts(n) && k < |NumeralText(n)|
    ensures IsNumberByte(NumeralText(n)[k])
  {
    var t := NumeralText(n);
    var e := n.exponent;
    if e.Exponent? {
      assert forall x <- ExponentText(e) :: x == e.letter || x in e.sign || x in e.digits;
      assert forall x <- ExponentText(e) :: IsNumberByte(x);
    }
    assert t[k] == MINUS || t[k] in n.whole || t[k] == DOT || t[k] in n.fraction || t[k] in ExponentText(e);
  }

  /** What stands in s at i and consists of at most n number bytes is within the copy. */
  lemma {:induction false} CopyHolds(s: Text, i: nat, n: nat, t: Text)
    requires At(s, i, t) && |t| <= n && i <= |s| && forall k :: 0 <= k < |t| ==> IsNumberByte(t[k])
    ensures At(NumberBytes(s, i, n), 0, t)
    decreases n
  {
    if t != [] {
      assert s[i + 0] == t[0];
      assert t == [t[0]] + t[1..];
      AtConcat(s, i, [t[0]], t[1..]);
      CopyHolds(s, i + 1, n - 1, t[1..]);
      var u := NumberBytes(s, i + 1, n - 1);
      forall k | 0 <= k < |t| ensures |t| <= |u| + 1 && ([s[i]] + u)[k] == t[k] {
        assert k > 0 ==> u[k - 1] == t[1..][k - 1];
      }
    }
  }

  lemma AtWithin(s: Text, i: nat, t: Text, u: Text)
    ensures At(s, i, t) && At(t, 0, u) ==> At(s, i, u)
  {
    if At(s, i, t) && At(t, 0, u) {
      forall k | 0 <= k < |u| ensures i + |u| <= |s| && s[i + k] == u[k] {
        assert t[0 + k] == u[k];
      }
    }
  }

  /** The copy of at most 63 bytes, in front of which a number can start. */
  lemma CopyOf(s: Text, i: nat, n: Numeral)
    requires i <= |s| && IsNumeral(n)
    ensures At(s, i, NumeralText(n)) <==> At(NumberBytes(s, i, 63), 0, NumeralText(n))
  {
    hide At, NumberBytes, NumeralText, IsNumberByte;
    AtWithin(s, i, NumberBytes(s, i, 63), NumeralText(n));
    if At(s, i, NumeralText(n)) {
      forall k: nat | k < |NumeralText(n)| ensures IsNumberByte(NumeralText(n)[k]) {
        NumeralBytes(n, k);
      }
      CopyHolds(s, i, 63, NumeralText(n));
    }
  }

  lemma FirstOfCopy(s: Text, i: nat)
    requires i < |s|
    ensures var t := NumberBytes(s, i, 63); if IsNumberByte(s[i]) then t != [] && t[0] == s[i] else t == []
  {
  }

  lemma LongestOfCopy(s: Text, i: nat)
    requires i < |s| && (s[i] == MINUS || IsDigit(s[i]))
    requires var n := Longest(NumberBytes(s, i, 63)); n.whole != [] || n.fraction != []
    ensures var n := Longest(NumberBytes(s, i, 63)); IsNumeral(n) && At(s, i, NumeralText(n))
  {
    var t := NumberBytes(s, i, 63);
    FirstOfCopy(s, i);
    StartOfDigit(t);
    hide NumberBytes, At, Longest, NumeralText, IsNumeral, HasParts;
    LongestStands(t);
    AtFits(t, 0, NumeralText(Longest(t)));
    AtWithin(s, i, t, NumeralText(Longest(t)));
    PartsAreNumeral(Longest(t));
  }

  lemma PartsAreNumeral(n: Numeral)
    requires HasParts(n) && (n.whole != [] || n.fraction != []) && (n.minus || n.whole != [])
    ensures |NumeralText(n)| <= 63 ==> IsNumeral(n)
  {
    hide NumeralText;
  }

  /** The longest number of the copy is the longest that stands there. */
  lemma LongestIsForemost(s: Text, i: nat)
    requires i < |s| && (s[i] == MINUS || IsDigit(s[i]))
    requires var n := Longest(NumberBytes(s, i, 63)); n.whole != [] || n.fraction != []
    ensures Foremost(s, i, Longest(NumberBytes(s, i, 63)))
  {
    hide NumberBytes, At, Longest, NumeralText, IsNumeral;
    var t := NumberBytes(s, i, 63);
    LongestOfCopy(s, i);
    forall m: Numeral | IsNumeral(m) && At(s, i, NumeralText(m))
      ensures |NumeralText(m)| <= |NumeralText(Longest(t))|
    {
      CopyOf(s, i, m);
      LongestCovers(t, m);
    }
  }

  /** A number is read as the longest that stands there, with its value. */
  lemma NumberRead(s: Text, i: nat) returns (n: Numeral)
    requires Terminated(s) && i < |s| && (s[i] == MINUS || IsDigit(s[i])) && ParseNumber(s, i).Parsed?
    ensures Foremost(s, i, n) && ParseNumber(s, i) == Parsed(Number(NumeralValue(n)), i + |NumeralText(n)|)
  {
    hide Strtod, NumberBytes, NumeralValue, Longest, NumeralText, Foremost;
    var t := NumberBytes(s, i, 63);
    n := Longest(t);
    FirstOfCopy(s, i);
    StrtodIsLongest(t);
    LongestIsForemost(s, i);
  }

  lemma StartOfDigit(t: Text)
    ensures t != [] && IsDigit(t[0]) ==> Longest(t).whole != []
    ensures t != [] && t[0] == MINUS ==> Longest(t).minus
  {
  }

  /** The longest number that stands at an offset is read there. */
  lemma ReadNumber(s: Text, i: nat, n: Numeral)
    requires Terminated(s) && i < |s| && Foremost(s, i, n)
    ensures ParseNumber(s, i) == Parsed(Number(NumeralValue(n)), i + |NumeralText(n)|)
    ensures s[i] == MINUS || IsDigit(s[i])
  {
    var t := NumberBytes(s, i, 63);
    FirstOfCopy(s, i);
    StartsWith(s, i, n);
    StrtodIsLongest(t);
    CopyOf(s, i, n);
    LongestCovers(t, n);
    hide Strtod, NumberBytes, NumeralValue, At, Longest, NumeralText, IsNumeral;
    var m := NumberRead(s, i);
    CopyOf(s, i, m);
    LongestCovers(t, m);
    assert |NumeralText(m)| == |NumeralText(n)|;
  }

  lemma StartsWith(s: Text, i: nat, n: Numeral)
    requires i < |s| && IsNumeral(n) && At(s, i, NumeralText(n))
    ensures s[i] == MINUS || IsDigit(s[i])
  {
    hide ExponentText;
    assert s[i + 0] == NumeralText(n)[0];
  }
}
