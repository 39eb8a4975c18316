// Valid UTF-8, as the standard library of the live tool checks it.
module Utf8 {
  import opened Bytes

  predicate Continuation(b: u8) { 0x80 <= b <= 0xbf }

  // The length of the first character of s, or 0 if there is none (RFC 3629, section 4).
  function CharLength(s: seq<u8>): (n: nat)
    ensures n <= |s|
  {
    if s == [] then 0
    else if s[0] < 0x80 then 1
    else if |s| < 2 then 0
    else if 0xc2 <= s[0] <= 0xdf && Continuation(s[1]) then 2
    else if |s| < 3 then 0
    else if
      || (s[0] == 0xe0 && 0xa0 <= s[1] <= 0xbf)
      || (s[0] == 0xed && 0x80 <= s[1] <= 0x9f)
      || (0xe1 <= s[0] <= 0xef && s[0] != 0xed && Continuation(s[1]))
    then if Continuation(s[2]) then 3 else 0
    else if |s| < 4 then 0
    else if
      || (s[0] == 0xf0 && 0x90 <= s[1] <= 0xbf)
      || (s[0] == 0xf4 && 0x80 <= s[1] <= 0x8f)
      || (0xf1 <= s[0] <= 0xf3 && Continuation(s[1]))
    then if Continuation(s[2]) && Continuation(s[3]) then 4 else 0
    else 0
  }

  predicate ValidUtf8(s: seq<u8>)
    decreases |s|
  {
    s == [] || (CharLength(s) > 0 && ValidUtf8(s[CharLength(s)..]))
  }

  // ----- the encoding (RFC 3629, section 3) -----

  type Scalar = c: nat | c < 0xd800 || 0xe000 <= c < 0x11_0000

  function Utf8(c: Scalar): (s: seq<u8>)
    ensures 1 <= |s| <= 4
  {
    if c < 0x80 then [c]
    else if c < 0x800 then [0xc0 + c / 0x40, 0x80 + c % 0x40]
    else if c < 0x1_0000 then [0xe0 + c / 0x1000, 0x80 + c / 0x40 % 0x40, 0x80 + c % 0x40]
    else [0xf0 + c / 0x4_0000, 0x80 + c / 0x1000 % 0x40, 0x80 + c / 0x40 % 0x40, 0x80 + c % 0x40]
  }

  function Utf8All(text: seq<Scalar>): seq<u8>
  {
    if text == [] then [] else Utf8(text[0]) + Utf8All(text[1..])
  }

  // Only the first bytes of a character decide its length.
  lemma CharLengthOf(c: Scalar, rest: seq<u8>)
    ensures CharLength(Utf8(c) + rest) == |Utf8(c)|
  {
    var e := Utf8(c);
    var s := e + rest;
    assert s[0] == e[0] && (|e| > 1 ==> s[1] == e[1]);
    assert (|e| > 2 ==> s[2] == e[2]) && (|e| > 3 ==> s[3] == e[3]);
  }

  // The character at the front.
  function ScalarAt(s: seq<u8>): int
    requires CharLength(s) > 0
  {
    var n, a := CharLength(s), s[0] as int;
    if n == 1 then a
    else
      var b := s[1] as int - 0x80;
      if n == 2 then (a - 0xc0) * 0x40 + b
      else
        var c := s[2] as int - 0x80;
        if n == 3 then (a - 0xe0) * 0x1000 + b * 0x40 + c
        else (a - 0xf0) * 0x4_0000 + b * 0x1000 + c * 0x40 + (s[3] as int - 0x80)
  }

  lemma FrontIsScalar(s: seq<u8>)
    requires CharLength(s) > 0
    ensures 0 <= ScalarAt(s) < 0xd800 || 0xe000 <= ScalarAt(s) < 0x11_0000
    ensures Utf8(ScalarAt(s)) == s[..CharLength(s)]
  {
    var n := CharLength(s);
    if n == 2 { FrontOfTwo(s); } else if n == 3 { FrontOfThree(s); } else if n == 4 { FrontOfFour(s); }
  }

  lemma Front(s: seq<u8>) returns (c: Scalar)
    requires CharLength(s) > 0
    ensures Utf8(c) == s[..CharLength(s)]
  {
    FrontIsScalar(s);
    c := ScalarAt(s);
  }

  lemma Cut(s: seq<u8>, n: nat)
    requires n <= |s|
    ensures s == s[..n] + s[n..]
  {
  }

  lemma FrontOfTwo(s: seq<u8>)
    requires CharLength(s) == 2
    ensures 0x80 <= ScalarAt(s) < 0x800 && Utf8(ScalarAt(s)) == s[..2]
  {
    TwoBytes(s[0] - 0xc0, s[1] - 0x80);
  }

  lemma FrontOfThree(s: seq<u8>)
    requires CharLength(s) == 3
    ensures 0x800 <= ScalarAt(s) < 0xd800 || 0xe000 <= ScalarAt(s) < 0x1_0000
    ensures Utf8(ScalarAt(s)) == s[..3]
  {
    ThreeBytes(s[0] - 0xe0, s[1] - 0x80, s[2] - 0x80);
  }

  lemma FrontOfFour(s: seq<u8>)
    requires CharLength(s) == 4
    ensures 0x1_0000 <= ScalarAt(s) < 0x11_0000 && Utf8(ScalarAt(s)) == s[..4]
  {
    FourBytes(s[0] - 0xf0, s[1] - 0x80, s[2] - 0x80, s[3] - 0x80);
  }

  lemma TwoBytes(a: nat, b: nat)
    requires b < 0x40
    ensures (a * 0x40 + b) / 0x40 == a && (a * 0x40 + b) % 0x40 == b
  {
  }

  lemma ThreeBytes(a: nat, b: nat, c: nat)
    requires b < 0x40 && c < 0x40
    ensures var x := a * 0x1000 + b * 0x40 + c; x / 0x1000 == a && x / 0x40 % 0x40 == b && x % 0x40 == c
  {
    var x := a * 0x1000 + b * 0x40 + c;
    assert x / 0x40 == a * 0x40 + b;
  }

  lemma FourBytes(a: nat, b: nat, c: nat, d: nat)
    requires b < 0x40 && c < 0x40 && d < 0x40
    ensures var x := a * 0x4_0000 + b * 0x1000 + c * 0x40 + d;
      x / 0x4_0000 == a && x / 0x1000 % 0x40 == b && x / 0x40 % 0x40 == c && x % 0x40 == d
  {
    var x := a * 0x4_0000 + b * 0x1000 + c * 0x40 + d;
    assert x / 0x1000 == a * 0x40 + b;
    assert x / 0x40 == (a * 0x40 + b) * 0x40 + c;
  }

  lemma {:induction false} EncodedIsValid(text: seq<Scalar>)
    ensures ValidUtf8(Utf8All(text))
  {
    if text != [] {
      var rest := Utf8All(text[1..]);
      CharLengthOf(text[0], rest);
      EncodedIsValid(text[1..]);
      assert (Utf8(text[0]) + rest)[|Utf8(text[0])|..] == rest;
    }
  }

  lemma {:induction false} ValidIsEncoded(s: seq<u8>) returns (text: seq<Scalar>)
    requires ValidUtf8(s)
    ensures Utf8All(text) == s
    decreases |s|
  {
    if s == [] {
      text := [];
    } else {
      var c := Front(s);
      var n := CharLength(s);
      var rest := ValidIsEncoded(s[n..]);
      text := [c] + rest;
      Cons(c, rest);
      Cut(s, n);
    }
  }

  lemma Cons(c: Scalar, rest: seq<Scalar>)
    ensures Utf8All([c] + rest) == Utf8(c) + Utf8All(rest)
  {
    assert ([c] + rest)[1..] == rest;
  }

  // The bytes accepted are the encodings of character sequences and no others.
  lemma ValidExactly(s: seq<u8>)
    ensures ValidUtf8(s) <==> exists text :: Utf8All(text) == s
  {
    if ValidUtf8(s) {
      var text := ValidIsEncoded(s);
    }
    if exists text :: Utf8All(text) == s {
      var text :| Utf8All(text) == s;
      EncodedIsValid(text);
    }
  }
}
