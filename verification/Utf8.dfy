/**
 * Well-formed UTF-8 (section 4 of RFC 3629): the byte strings Rust's `str`, and
 * with it the Rust side's key type, can hold.
 */
module Utf8 {
  import opened Types

  predicate Between(b: Byte, lo: Byte, hi: Byte) { lo <= b <= hi }

  /** A continuation byte. */
  predicate Tail(b: Byte) { Between(b, 0x80, 0xBF) }

  /** The length of the well-formed character at the front; 0 when there is none. */
  function CharLength(s: Bytes): (n: nat)
    ensures n <= |s|
  {
    if s == [] then 0
    else if s[0] < 0x80 then 1
    else if |s| >= 2 && Between(s[0], 0xC2, 0xDF) && Tail(s[1]) then 2
    else if |s| >= 3 && ThreeByteLead(s[0], s[1]) && Tail(s[2]) then 3
    else if |s| >= 4 && FourByteLead(s[0], s[1]) && Tail(s[2]) && Tail(s[3]) then 4
    else 0
  }

  /** No overlong forms, no surrogates. */
  predicate ThreeByteLead(a: Byte, b: Byte) {
    || (a == 0xE0 && Between(b, 0xA0, 0xBF))
    || (a == 0xED && Between(b, 0x80, 0x9F))
    || (Between(a, 0xE1, 0xEF) && a != 0xED && Tail(b))
  }

  /** No overlong forms, nothing above U+10FFFF. */
  predicate FourByteLead(a: Byte, b: Byte) {
    || (a == 0xF0 && Between(b, 0x90, 0xBF))
    || (Between(a, 0xF1, 0xF3) && Tail(b))
    || (a == 0xF4 && Between(b, 0x80, 0x8F))
  }

  predicate IsText(s: Bytes) {
    s == [] || (CharLength(s) > 0 && IsText(s[CharLength(s)..]))
  }

  ghost predicate AllText(ss: seq<Bytes>) { forall i :: 0 <= i < |ss| ==> IsText(ss[i]) }

  lemma {:induction false} AsciiIsText(s: Bytes)
    requires forall i :: 0 <= i < |s| ==> s[i] < 0x80
    ensures IsText(s)
  {
    if s != [] { AsciiIsText(s[1..]); }
  }

  /** After text, the rest decides. */
  lemma {:induction false} TextAppend(a: Bytes, b: Bytes)
    requires IsText(a)
    ensures IsText(a + b) <==> IsText(b)
  {
    if a == [] {
      assert a + b == b;
    } else {
      var n := CharLength(a);
      var c, t := a[..n], a[n..];
      TextAppend(t, b);
      FrontChar(a, b);
      assert a + b == c + (t + b);
      RestDecides(c, t + b);
    }
  }

  lemma RestDecides(c: Bytes, t: Bytes)
    requires CharLength(c + t) == |c| > 0
    ensures IsText(c + t) <==> IsText(t)
  {
    assert (c + t)[|c|..] == t;
  }

  lemma FrontChar(a: Bytes, b: Bytes)
    requires CharLength(a) > 0
    ensures CharLength(a + b) == CharLength(a)
  {
    assert forall i :: 0 <= i < |a| ==> (a + b)[i] == a[i];
  }

  // ---- against the encoding of characters --------------------------------

  /** A Unicode scalar value: anything up to U+10FFFF but the surrogates. */
  predicate ScalarValue(c: int) { 0 <= c <= 0xD7FF || 0xE000 <= c <= 0x10FFFF }

  /** The octet sequence of one character. */
  function Char(c: int): Bytes
    requires ScalarValue(c)
  {
    if c < 0x80 then [c]
    else if c < 0x800 then [0xC0 + c / 64, 0x80 + c % 64]
    else if c < 0x1_0000 then [0xE0 + c / 4096, 0x80 + c / 64 % 64, 0x80 + c % 64]
    else [0xF0 + c / 262144, 0x80 + c / 4096 % 64, 0x80 + c / 64 % 64, 0x80 + c % 64]
  }

  predicate AllScalars(cs: seq<int>) { forall i :: 0 <= i < |cs| ==> ScalarValue(cs[i]) }

  function Text(cs: seq<int>): Bytes
    requires AllScalars(cs)
  {
    if cs == [] then [] else Char(cs[0]) + Text(cs[1..])
  }

  lemma CharRecognised(c: int, rest: Bytes)
    requires ScalarValue(c)
    ensures CharLength(Char(c) + rest) == |Char(c)| > 0
  {
    if 0x800 <= c < 0x1_0000 { ThreeByteChar(c); } else if 0x1_0000 <= c { FourByteChar(c); }
    FrontChar(Char(c), rest);
  }

  lemma ThreeByteChar(c: int)
    requires ScalarValue(c) && 0x800 <= c < 0x1_0000
    ensures ThreeByteLead(0xE0 + c / 4096, 0x80 + c / 64 % 64)
  {
    Shift12(c);
  }

  lemma FourByteChar(c: int)
    requires ScalarValue(c) && 0x1_0000 <= c
    ensures FourByteLead(0xF0 + c / 262144, 0x80 + c / 4096 % 64)
  {
    Shift12(c);
    Shift18(c);
  }

  lemma CharFound(s: Bytes) returns (c: int)
    requires CharLength(s) > 0
    ensures ScalarValue(c) && Char(c) == s[..CharLength(s)]
  {
    var n := CharLength(s);
    var lead: int := s[0];
    if n == 1 {
      c := lead;
    } else if n == 2 {
      c := Join(lead - 0xC0, Low6(s[1]));
      JoinSplits(lead - 0xC0, Low6(s[1]));
    } else if n == 3 {
      c := ThreeBytes(s);
    } else {
      c := FourBytes(s);
    }
  }

  lemma ThreeBytes(s: Bytes) returns (c: int)
    requires CharLength(s) == 3
    ensures ScalarValue(c) && Char(c) == s[..3]
  {
    var x, y, z := s[0] as int - 0xE0, Low6(s[1]), Low6(s[2]);
    c := Join(Join(x, y), z);
    JoinSplits(x, y);
    JoinSplits(Join(x, y), z);
    Shift12(c);
  }

  lemma FourBytes(s: Bytes) returns (c: int)
    requires CharLength(s) == 4
    ensures ScalarValue(c) && Char(c) == s[..4]
  {
    var w, x, y, z := s[0] as int - 0xF0, Low6(s[1]), Low6(s[2]), Low6(s[3]);
    c := Join(Join(Join(w, x), y), z);
    JoinSplits(w, x);
    JoinSplits(Join(w, x), y);
    JoinSplits(Join(Join(w, x), y), z);
    Shift12(c);
    Shift18(c);
  }

  function Join(hi: int, lo: int): int { hi * 64 + lo }

  lemma JoinSplits(hi: int, lo: int)
    requires 0 <= lo < 64
    ensures Join(hi, lo) / 64 == hi && Join(hi, lo) % 64 == lo
  {
  }

  lemma Shift12(c: int)
    ensures c / 4096 == c / 64 / 64
  {
  }

  lemma Shift18(c: int)
    ensures c / 262144 == c / 64 / 64 / 64
  {
  }

  /** What a continuation byte carries. */
  function Low6(b: Byte): int { b as int - 0x80 }

  /** Text is exactly what encoding characters one after the other yields. */
  lemma {:induction false} IsTextIff(s: Bytes)
    ensures IsText(s) <==> exists cs :: AllScalars(cs) && s == Text(cs)
  {
    if IsText(s) {
      var cs := Characters(s);
    }
    if cs :| AllScalars(cs) && s == Text(cs) {
      TextIsText(cs);
    }
  }

  lemma {:induction false} Characters(s: Bytes) returns (cs: seq<int>)
    requires IsText(s)
    ensures AllScalars(cs) && s == Text(cs)
  {
    if s == [] {
      cs := [];
    } else {
      var n := CharLength(s);
      var c := CharFound(s);
      var rest := Characters(s[n..]);
      cs := [c] + rest;
      assert cs[1..] == rest && s == s[..n] + s[n..];
    }
  }

  lemma {:induction false} TextIsText(cs: seq<int>)
    requires AllScalars(cs)
    ensures IsText(Text(cs))
  {
    if cs != [] {
      TextIsText(cs[1..]);
      CharRecognised(cs[0], Text(cs[1..]));
      RestDecides(Char(cs[0]), Text(cs[1..]));
    }
  }
}
