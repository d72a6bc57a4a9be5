/** Bytes and byte strings: what the C code calls `unsigned char` and `char *`. */
module Bytes {

  datatype Option<+T> = None | Some(value: T)

  type Byte = b: int | 0 <= b < 256
  type Text = seq<Byte>

  const NUL: Byte := 0
  const TAB: Byte := 9
  const NEWLINE: Byte := 10
  const RETURN: Byte := 13
  const SPACE: Byte := 32
  const QUOTE: Byte := 34
  const STAR: Byte := 42
  const PLUS: Byte := 43
  const COMMA: Byte := 44
  const MINUS: Byte := 45
  const DOT: Byte := 46
  const SLASH: Byte := 47
  const ZERO: Byte := 48
  const NINE: Byte := 57
  const COLON: Byte := 58
  const LBRACKET: Byte := 91
  const BACKSLASH: Byte := 92
  const RBRACKET: Byte := 93
  const LBRACE: Byte := 123
  const RBRACE: Byte := 125

  /** A C string holds no NUL before its terminator. */
  predicate NulFree(s: Text) {
    forall i :: 0 <= i < |s| ==> s[i] != NUL
  }

  /** What the C library reads from a buffer holding s: the bytes before the first NUL. */
  function CString(s: Text): (r: Text)
    ensures |r| <= |s| && r == s[..|r|] && NulFree(r)
    ensures |r| < |s| ==> s[|r|] == NUL
  {
    if s == [] || s[0] == NUL then [] else [s[0]] + CString(s[1..])
  }

  lemma CStringOfNulFree(s: Text)
    ensures NulFree(s) ==> CString(s) == s
  {
  }

  /** t occurs in s at offset i. */
  predicate At(s: Text, i: int, t: Text) {
    0 <= i && i + |t| <= |s| && forall k :: 0 <= k < |t| ==> s[i + k] == t[k]
  }

  lemma AtConcat(s: Text, i: int, a: Text, b: Text)
    requires At(s, i, a + b)
    ensures At(s, i, a) && At(s, i + |a|, b)
  {
    forall k | 0 <= k < |a| ensures s[i + k] == a[k] {
      assert (a + b)[k] == a[k];
    }
    forall k | 0 <= k < |b| ensures s[i + |a| + k] == b[k] {
      assert (a + b)[|a| + k] == b[k];
    }
  }

  lemma AtAppend(s: Text, i: int, a: Text, b: Text)
    requires At(s, i, a) && At(s, i + |a|, b)
    ensures At(s, i, a + b)
  {
    forall k | 0 <= k < |a + b| ensures s[i + k] == (a + b)[k] {
      assert k >= |a| ==> s[i + |a| + (k - |a|)] == b[k - |a|];
    }
  }

  lemma AtByte(s: Text, i: int, t: Text, k: nat)
    ensures At(s, i, t) && k < |t| ==> 0 <= i && i + |t| <= |s| && s[i + k] == t[k]
  {
  }

  lemma AtSlice(s: Text, i: int, t: Text)
    ensures At(s, i, t) ==> s[i..i + |t|] == t
  {
  }
}
