/** Numbers of 3rdparty/cjson/cJSON.c: the copy into a 64-byte buffer and its conversion. */
module JsonNumber {
  import opened Bytes
  import opened Decimals
  import opened Json

  const NUMBER_BUFFER := 64

  predicate IsNumberByte(c: Byte) {
    IsDigit(c) || c == PLUS || c == MINUS || c == DOT || c == 69 || c == 101
  }

  /** The longest run of at most n number bytes in s at offset i. */
  function NumberBytes(s: Text, i: nat, n: nat): (t: Text)
    requires i <= |s|
    ensures |t| <= n && At(s, i, t) && forall k :: 0 <= k < |t| ==> IsNumberByte(t[k])
    ensures |t| < n && i + |t| < |s| ==> !IsNumberByte(s[i + |t|])
    decreases n
  {
    if n == 0 || i == |s| || !IsNumberByte(s[i]) then []
    else
      var rest := NumberBytes(s, i + 1, n - 1);
      [s[i]] + rest
  }

  /** x times ten to the power e, exactly. */
  function Scale(x: real, e: int): real
    decreases if e < 0 then -e else e
  {
    if e == 0 then x else if e > 0 then Scale(x * 10.0, e - 1) else Scale(x / 10.0, e + 1)
  }

  /** The exponent part of a number at offset q of t: its value and the offset behind it. */
  function ExponentAt(t: Text, q: nat): (r: (int, nat))
    requires q <= |t|
    ensures q <= r.1 <= |t|
    ensures q == |t| ==> r == (0, q)
  {
    if q == |t| || (t[q] != 69 && t[q] != 101) then (0, q)
    else
      var signed := q + 1 < |t| && (t[q + 1] == PLUS || t[q + 1] == MINUS);
      var d := if signed then q + 2 else q + 1;
      var n := DigitRun(t[d..]);
      if n == 0 then (0, q)
      else
        var e: int := DigitsValue(t[d..][..n]);
        (if signed && t[q + 1] == MINUS then -e else e, d + n)
  }

  /** The C library's strtod on a text of number bytes, without rounding: the value and how many
      bytes it used; None when it converts nothing. */
  function Strtod(t: Text): (r: Option<(real, nat)>)
    ensures r.Some? ==> 1 <= r.value.1 <= |t|
  {
    var start := if t != [] && (t[0] == PLUS || t[0] == MINUS) then 1 else 0;
    var whole := DigitRun(t[start..]);
    var p := start + whole;
    var dot := p < |t| && t[p] == DOT;
    var fraction := if dot then DigitRun(t[p + 1..]) else 0;
    if whole + fraction == 0 then None
    else
      var q := if dot then p + 1 + fraction else p;
      var mantissa := DigitsValue(t[start..][..whole] + if dot then t[p + 1..][..fraction] else []);
      var (e, end) := ExponentAt(t, q);
      var magnitude := Scale(mantissa as real, e - fraction);
      Some((if t[0] == MINUS then -magnitude else magnitude, end))
  }

  // ---------------------------------------------------------------- round trip of printed integers

  lemma StrtodOfDigits(t: Text, start: nat, d: Text)
    requires d != [] && AllDigits(d)
    requires (start == 0 && t == d) || (start == 1 && t == [MINUS] + d)
    ensures Strtod(t) == Some((if start == 1 then -(DigitsValue(d) as real) else DigitsValue(d) as real, |t|))
  {
    assert t[start..] == d && (start == 0 ==> IsDigit(t[0]));
    DigitRunOfDigits(d);
    assert d[..|d|] + [] == d;
    var m := DigitsValue(d) as real;
    assert ExponentAt(t, |t|) == (0, |t|);
    assert Scale(m, 0) == m;
  }

  lemma StrtodOfDecimal(n: int)
    ensures Strtod(Decimal(n)) == Some((n as real, |Decimal(n)|))
  {
    var m: nat := if n < 0 then -n else n;
    StrtodOfDigits(Decimal(n), if n < 0 then 1 else 0, Digits(m));
    DigitsValueOfDigits(m);
  }

  lemma {:induction false} NumberBytesOf(s: Text, i: nat, n: nat, t: Text)
    requires At(s, i, t) && |t| < n && i + |t| < |s| && !IsNumberByte(s[i + |t|])
    requires forall k :: 0 <= k < |t| ==> IsNumberByte(t[k])
    ensures NumberBytes(s, i, n) == t
    decreases |t|
  {
    if t != [] {
      assert s[i + 0] == t[0];
      assert t == [t[0]] + t[1..];
      AtConcat(s, i, [t[0]], t[1..]);
      NumberBytesOf(s, i + 1, n - 1, t[1..]);
    }
  }

  lemma DecimalIsShort(n: int)
    requires -PRINTABLE_LIMIT < n < PRINTABLE_LIMIT
    ensures |Decimal(n)| <= 16
    ensures forall k :: 0 <= k < |Decimal(n)| ==> IsNumberByte(Decimal(n)[k])
  {
    assert Pow10(5) == 100_000;
    assert Pow10(10) == 10_000_000_000;
    assert Pow10(15) == PRINTABLE_LIMIT;
    DigitsLength(if n < 0 then -n else n, 15);
  }

  lemma NumberReadBack(s: Text, i: nat, n: int)
    requires -PRINTABLE_LIMIT < n < PRINTABLE_LIMIT
    requires At(s, i, Decimal(n)) && i + |Decimal(n)| < |s| && !IsNumberByte(s[i + |Decimal(n)|])
    ensures Strtod(NumberBytes(s, i, NUMBER_BUFFER - 1)) == Some((n as real, |Decimal(n)|))
  {
    DecimalIsShort(n);
    NumberBytesOf(s, i, NUMBER_BUFFER - 1, Decimal(n));
    StrtodOfDecimal(n);
  }
}
