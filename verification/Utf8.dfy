/**
 * What Python's strict `bytes.decode('utf-8')` accepts: well-formed UTF-8 as in section 4 of RFC 3629. Text
 * stands for its encoding everywhere; this predicate says which byte strings are text.
 */
module Utf8 {
  import opened Bytes

  predicate Continuation(b: byte) {
    0x80 <= b <= 0xBF
  }

  /** How many bytes the character that begins with this byte takes; 0 if none does. */
  function Width(lead: byte): nat {
    if lead <= 0x7F then 1
    else if 0xC2 <= lead <= 0xDF then 2
    else if 0xE0 <= lead <= 0xEF then 3
    else if 0xF0 <= lead <= 0xF4 then 4
    else 0
  }

  /** Rules out overlong forms, surrogates and code points above U+10FFFF. */
  predicate SecondByte(lead: byte, b: byte) {
    && Continuation(b)
    && (lead == 0xE0 ==> b >= 0xA0) && (lead == 0xED ==> b <= 0x9F)
    && (lead == 0xF0 ==> b >= 0x90) && (lead == 0xF4 ==> b <= 0x8F)
  }

  /** The width of a whole, well-formed character at the front, or 0. */
  function CharWidth(s: bytes): (n: nat)
    ensures n <= |s|
  {
    if s == [] then 0
    else
      var n := Width(s[0]);
      if |s| < n then 0
      else if n >= 2 && !SecondByte(s[0], s[1]) then 0
      else if n >= 3 && !Continuation(s[2]) then 0
      else if n >= 4 && !Continuation(s[3]) then 0
      else n
  }

  predicate IsText(s: bytes)
    decreases |s|, 1
  {
    s == [] || BeginsWithChar(s)
  }

  predicate BeginsWithChar(s: bytes)
    decreases |s|, 0
  {
    CharWidth(s) > 0 && IsText(s[CharWidth(s)..])
  }

  /** The first k bytes are a number of whole characters. */
  predicate Boundary(s: bytes, k: nat)
    decreases |s|
  {
    k == 0 || (0 < CharWidth(s) <= k && Boundary(s[CharWidth(s)..], k - CharWidth(s)))
  }

  /** A leading part of a text is a text exactly when it ends between two characters. */
  lemma {:induction false} CutExactly(s: bytes, k: nat)
    requires IsText(s) && k <= |s|
    ensures IsText(s[..k]) <==> Boundary(s, k)
    decreases |s|
  {
    if k > 0 {
      var n := CharWidth(s);
      if n <= k {
        assert CharWidth(s[..k]) == n;
        assert s[..k][n..] == s[n..][..k - n];
        CutExactly(s[n..], k - n);
      } else {
        assert CharWidth(s[..k]) == 0;
      }
    }
  }

  lemma {:induction false} TextAppend(s: bytes, t: bytes)
    requires IsText(s) && IsText(t)
    ensures IsText(s + t)
    decreases |s|
  {
    if s == [] {
      assert s + t == t;
    } else {
      var n := CharWidth(s);
      assert CharWidth(s + t) == n && (s + t)[n..] == s[n..] + t;
      TextAppend(s[n..], t);
    }
  }

  // ---------------------------------------------------------------- code points

  predicate Scalar(v: int) {
    0 <= v < 0xD800 || 0xE000 <= v < 0x11_0000
  }

  /** The encoding of one character. */
  function EncodeChar(v: int): bytes
    requires Scalar(v)
  {
    if v < 0x80 then [v as byte]
    else if v < 0x800 then [(0xC0 + v / 0x40) as byte, (0x80 + v % 0x40) as byte]
    else if v < 0x1_0000 then
      [(0xE0 + v / 0x1000) as byte, (0x80 + v / 0x40 % 0x40) as byte, (0x80 + v % 0x40) as byte]
    else
      [(0xF0 + v / 0x4_0000) as byte, (0x80 + v / 0x1000 % 0x40) as byte, (0x80 + v / 0x40 % 0x40) as byte,
       (0x80 + v % 0x40) as byte]
  }

  function EncodeText(vs: seq<int>): bytes
    requires forall v :: v in vs ==> Scalar(v)
  {
    if vs == [] then [] else EncodeChar(vs[0]) + EncodeText(vs[1..])
  }

  lemma CharIsText(v: int)
    requires Scalar(v)
    ensures CharWidth(EncodeChar(v)) == |EncodeChar(v)| > 0
  {
  }

  /** Whatever a string holds, its encoding is text. */
  lemma {:induction false} EncodedIsText(vs: seq<int>)
    requires forall v :: v in vs ==> Scalar(v)
    ensures IsText(EncodeText(vs))
  {
    if vs != [] {
      CharIsText(vs[0]);
      assert EncodeChar(vs[0])[|EncodeChar(vs[0])|..] == [];
      EncodedIsText(vs[1..]);
      TextAppend(EncodeChar(vs[0]), EncodeText(vs[1..]));
    }
  }

  // ---------------------------------------------------------------- text is exactly what encodes characters

  /** One-, two-, three- and four-byte characters: U+0041, U+00E9, U+20AC and U+1F600. */
  lemma Examples()
    ensures EncodeChar(0x41) == [0x41] && EncodeChar(0xE9) == [0xC3, 0xA9]
    ensures EncodeChar(0x20AC) == [0xE2, 0x82, 0xAC] && EncodeChar(0x1_F600) == [0xF0, 0x9F, 0x98, 0x80]
  {
  }

  /** The code point of the character at the front. */
  function CharAt(s: bytes): int
    requires CharWidth(s) > 0
  {
    var n := CharWidth(s);
    if n == 1 then s[0] as int
    else if n == 2 then (s[0] as int - 0xC0) * 0x40 + (s[1] as int - 0x80)
    else if n == 3 then (s[0] as int - 0xE0) * 0x1000 + (s[1] as int - 0x80) * 0x40 + (s[2] as int - 0x80)
    else
      (s[0] as int - 0xF0) * 0x4_0000 + (s[1] as int - 0x80) * 0x1000 + (s[2] as int - 0x80) * 0x40 +
      (s[3] as int - 0x80)
  }

  lemma Short(s: bytes)
    requires 0 < CharWidth(s) <= 2
    ensures Scalar(CharAt(s)) && EncodeChar(CharAt(s)) == s[..CharWidth(s)]
  {
  }

  lemma Three(s: bytes)
    requires CharWidth(s) == 3
    ensures Scalar(CharAt(s)) && EncodeChar(CharAt(s)) == s[..3]
  {
    var v, a, b, c := CharAt(s), s[0] as int - 0xE0, s[1] as int - 0x80, s[2] as int - 0x80;
    assert v == (a * 0x40 + b) * 0x40 + c && v / 0x40 == a * 0x40 + b && v / 0x1000 == a;
  }

  lemma Four(s: bytes)
    requires CharWidth(s) == 4
    ensures Scalar(CharAt(s)) && EncodeChar(CharAt(s)) == s[..4]
  {
    var a, b, c, d := s[0] as int - 0xF0, s[1] as int - 0x80, s[2] as int - 0x80, s[3] as int - 0x80;
    assert (a == 0 ==> b >= 0x10) && (a == 4 ==> b <= 0xF) && a <= 4;
    FourGroups(a, b, c, d);
    assert CharAt(s) == a * 0x4_0000 + b * 0x1000 + c * 0x40 + d;
  }

  /** The groups of six bits of a number. */
  lemma FourGroups(a: nat, b: nat, c: nat, d: nat)
    requires b < 0x40 && c < 0x40 && d < 0x40
    ensures var v := a * 0x4_0000 + b * 0x1000 + c * 0x40 + d;
            && v / 0x4_0000 == a && v / 0x1000 % 0x40 == b && v / 0x40 % 0x40 == c && v % 0x40 == d
  {
    var v := a * 0x4_0000 + b * 0x1000 + c * 0x40 + d;
    assert v / 0x40 == a * 0x1000 + b * 0x40 + c;
    assert v / 0x1000 == a * 0x40 + b;
  }

  /** The decoder accepts exactly the encodings of sequences of code points that are no surrogates. */
  lemma TextExactly(s: bytes)
    ensures IsText(s) <==> exists vs: seq<int> :: (forall v :: v in vs ==> Scalar(v)) && EncodeText(vs) == s
  {
    if IsText(s) {
      var vs := Characters(s);
    }
    forall vs: seq<int> | (forall v :: v in vs ==> Scalar(v)) && EncodeText(vs) == s ensures IsText(s) {
      EncodedIsText(vs);
    }
  }

  lemma {:induction false} Characters(s: bytes) returns (vs: seq<int>)
    requires IsText(s)
    ensures (forall v :: v in vs ==> Scalar(v)) && EncodeText(vs) == s
    decreases |s|
  {
    if s == [] {
      vs := [];
    } else {
      var n := CharWidth(s);
      var rest := Characters(s[n..]);
      if n <= 2 {
        Short(s);
      } else if n == 3 {
        Three(s);
      } else {
        Four(s);
      }
      vs := [CharAt(s)] + rest;
      assert vs[1..] == rest && s == s[..n] + s[n..];
    }
  }
}
