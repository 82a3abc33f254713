/** UTF-8, and the lossy reading of bytes that `decode_base64` applies (`String::from_utf8_lossy`). */
module Utf8 {
  import opened Base64

  function Split2(n: int): seq<int> {
    [0xC0 + n / 64, 0x80 + n % 64]
  }

  function Split3(n: int): seq<int> {
    var m := n / 64;
    [0xE0 + m / 64, 0x80 + m % 64, 0x80 + n % 64]
  }

  function Split4(n: int): seq<int> {
    var (m, h) := (n / 64, n / 64 / 64);
    [0xF0 + h / 64, 0x80 + h % 64, 0x80 + m % 64, 0x80 + n % 64]
  }

  function EncodeChar(c: char): (b: seq<byte>)
    ensures 1 <= |b| <= 4
  {
    var n := c as int;
    if n < 0x80 then [n]
    else if n < 0x800 then Split2(n)
    else if n < 0x1_0000 then Split3(n)
    else Split4(n)
  }

  function Join2(x: int, y: int): int {
    (x - 0xC0) * 64 + (y - 0x80)
  }

  function Join3(x: int, y: int, z: int): int {
    ((x - 0xE0) * 64 + (y - 0x80)) * 64 + (z - 0x80)
  }

  function Join4(x: int, y: int, z: int, w: int): int {
    (((x - 0xF0) * 64 + (y - 0x80)) * 64 + (z - 0x80)) * 64 + (w - 0x80)
  }

  function Encoded(s: string): seq<byte> {
    if s == "" then [] else EncodeChar(s[0]) + Encoded(s[1..])
  }

  /** What the bytes start with: a character, or a sequence that is no character. */
  datatype Piece = Good(c: char, len: nat) | Bad(len: nat)

  predicate IsContinuation(b: seq<byte>, i: nat) {
    i < |b| && 0x80 <= b[i] < 0xC0
  }

  /** The second byte of three or four: no overlong form, no surrogate, nothing past U+10FFFF. */
  predicate SecondFits(b: seq<byte>)
    requires |b| > 0
  {
    && IsContinuation(b, 1)
    && (b[0] == 0xE0 ==> b[1] >= 0xA0)
    && (b[0] == 0xED ==> b[1] < 0xA0)
    && (b[0] == 0xF0 ==> b[1] >= 0x90)
    && (b[0] == 0xF4 ==> b[1] < 0x90)
  }

  function First(b: seq<byte>): (p: Piece)
    requires |b| > 0
    ensures 1 <= p.len <= |b|
  {
    if b[0] < 0x80 then Good(b[0] as char, 1)
    else if 0xC2 <= b[0] < 0xE0 then
      if IsContinuation(b, 1) then Good(Join2(b[0], b[1]) as char, 2) else Bad(1)
    else if 0xE0 <= b[0] < 0xF0 then
      if !SecondFits(b) then Bad(1)
      else if !IsContinuation(b, 2) then Bad(2)
      else Good(Join3(b[0], b[1], b[2]) as char, 3)
    else if 0xF0 <= b[0] < 0xF5 then
      if !SecondFits(b) then Bad(1)
      else if !IsContinuation(b, 2) then Bad(2)
      else if !IsContinuation(b, 3) then Bad(3)
      else Good(Join4(b[0], b[1], b[2], b[3]) as char, 4)
    else Bad(1)
  }

  const REPLACEMENT: char := '\U{FFFD}'

  /** Every sequence that is no character becomes one replacement character. */
  function Lossy(b: seq<byte>): string {
    if b == [] then ""
    else
      var p := First(b);
      [if p.Good? then p.c else REPLACEMENT] + Lossy(b[p.len..])
  }

  predicate IsUtf8(b: seq<byte>) {
    b == [] || (First(b).Good? && IsUtf8(b[First(b).len..]))
  }

  /** `b` starts with the bytes `a`. */
  predicate StartsWith(b: seq<byte>, a: seq<int>) {
    |a| <= |b| && forall i :: 0 <= i < |a| ==> b[i] == a[i]
  }

  lemma FirstOfTwo(n: nat, b: seq<byte>)
    requires 0x80 <= n < 0x800 && StartsWith(b, Split2(n))
    ensures First(b) == Good(n as char, 2)
  {
  }

  lemma FirstOfThree(n: nat, b: seq<byte>)
    requires 0x800 <= n < 0x1_0000 && !(0xD800 <= n < 0xE000) && StartsWith(b, Split3(n))
    ensures First(b) == Good(n as char, 3)
  {
  }

  lemma FirstOfFour(n: nat, b: seq<byte>)
    requires 0x1_0000 <= n < 0x11_0000 && StartsWith(b, Split4(n))
    ensures First(b) == Good(n as char, 4)
  {
  }

  /** The first character of a text is read back whole. */
  lemma FirstOfChar(c: char, rest: seq<byte>)
    ensures First(EncodeChar(c) + rest) == Good(c, |EncodeChar(c)|)
  {
    var n, b := c as int, EncodeChar(c) + rest;
    assert StartsWith(b, EncodeChar(c));
    if 0x80 <= n {
      hide First, StartsWith;
      if n < 0x800 {
        FirstOfTwo(n, b);
      } else if n < 0x1_0000 {
        FirstOfThree(n, b);
      } else {
        FirstOfFour(n, b);
      }
    }
  }

  lemma SplitOfTwo(x: int, y: int)
    requires 0xC2 <= x < 0xE0 && 0x80 <= y < 0xC0
    ensures 0x80 <= Join2(x, y) < 0x800 && Split2(Join2(x, y)) == [x, y]
  {
  }

  lemma SplitOfThree(x: int, y: int, z: int)
    requires 0xE0 <= x < 0xF0 && 0x80 <= y < 0xC0 && 0x80 <= z < 0xC0
    requires (x == 0xE0 ==> y >= 0xA0) && (x == 0xED ==> y < 0xA0)
    ensures !(0xD800 <= Join3(x, y, z) < 0xE000)
    ensures 0x800 <= Join3(x, y, z) < 0x1_0000 && Split3(Join3(x, y, z)) == [x, y, z]
  {
  }

  lemma SplitOfFour(x: int, y: int, z: int, w: int)
    requires 0xF0 <= x < 0xF5 && 0x80 <= y < 0xC0 && 0x80 <= z < 0xC0 && 0x80 <= w < 0xC0
    requires (x == 0xF0 ==> y >= 0x90) && (x == 0xF4 ==> y < 0x90)
    ensures 0x1_0000 <= Join4(x, y, z, w) < 0x11_0000 && Split4(Join4(x, y, z, w)) == [x, y, z, w]
  {
    var h := (x - 0xF0) * 64 + (y - 0x80);
    var m := h * 64 + (z - 0x80);
    LastSix(x - 0xF0, y - 0x80);
    LastSix(h, z - 0x80);
    LastSix(m, w - 0x80);
  }

  lemma LastSix(n: int, d: int)
    requires 0 <= d < 64
    ensures (n * 64 + d) / 64 == n && (n * 64 + d) % 64 == d
  {
  }

  /** A character that is read is written back as the bytes it was read from. */
  lemma CharOfFirst(b: seq<byte>)
    requires |b| > 0 && First(b).Good?
    ensures EncodeChar(First(b).c) == b[..First(b).len]
  {
    hide Split2, Split3, Split4, Join2, Join3, Join4;
    if 0xF0 <= b[0] {
      SplitOfFour(b[0], b[1], b[2], b[3]);
      assert b[..4] == [b[0], b[1], b[2], b[3]];
    } else if 0xE0 <= b[0] {
      SplitOfThree(b[0], b[1], b[2]);
      assert b[..3] == [b[0], b[1], b[2]];
    } else if 0x80 <= b[0] {
      SplitOfTwo(b[0], b[1]);
      assert b[..2] == [b[0], b[1]];
    } else {
      assert b[..1] == [b[0]];
    }
  }

  /** For every string: reading its UTF-8 form gives the string back. */
  lemma {:induction false} LossyOfEncoded(s: string)
    ensures Lossy(Encoded(s)) == s && IsUtf8(Encoded(s))
  {
    hide EncodeChar, First;
    if s != "" {
      var c, rest := EncodeChar(s[0]), Encoded(s[1..]);
      FirstOfChar(s[0], rest);
      LossyOfEncoded(s[1..]);
      assert (c + rest)[|c|..] == rest;
    }
  }

  lemma {:induction false} EncodedOfLossy(b: seq<byte>)
    requires IsUtf8(b)
    ensures Encoded(Lossy(b)) == b
  {
    hide EncodeChar, First;
    if b != [] {
      var p := First(b);
      CharOfFirst(b);
      EncodedOfLossy(b[p.len..]);
      assert b == b[..p.len] + b[p.len..];
      assert Lossy(b)[1..] == Lossy(b[p.len..]);
    }
  }

  /** For all bytes: nothing is lost exactly when they are well-formed UTF-8. */
  lemma NothingLostIff(b: seq<byte>)
    ensures Encoded(Lossy(b)) == b <==> IsUtf8(b)
  {
    hide Encoded, Lossy;
    if IsUtf8(b) { EncodedOfLossy(b); }
    LossyOfEncoded(Lossy(b));
  }

  /******* The bytes of section 3 of RFC 3629 *******/

  /** ASCII is written as it is. */
  lemma {:induction false} AsciiIsItself(s: string)
    requires forall i :: 0 <= i < |s| ==> s[i] as int < 0x80
    ensures |Encoded(s)| == |s| && forall i :: 0 <= i < |s| ==> Encoded(s)[i] == s[i] as int
  {
    if s != "" {
      AsciiIsItself(s[1..]);
      assert EncodeChar(s[0]) == [s[0] as int];
    }
  }

  /** The leading byte says how many follow, the others carry six bits each, the highest first. */
  lemma CharBits(c: char)
    ensures var b: seq<int>, n := EncodeChar(c), c as int;
            && (forall i :: 1 <= i < |b| ==> 0x80 <= b[i] < 0xC0)
            && (|b| == 1 ==> n == b[0] < 0x80)
            && (|b| == 2 ==> 0xC0 <= b[0] < 0xE0 && n == (b[0] - 0xC0) * 64 + (b[1] - 0x80))
            && (|b| == 3 ==> 0xE0 <= b[0] < 0xF0 && n == ((b[0] - 0xE0) * 64 + (b[1] - 0x80)) * 64 + (b[2] - 0x80))
            && (|b| == 4 ==> 0xF0 <= b[0] < 0xF8 && n - (b[3] - 0x80) == (((b[0] - 0xF0) * 64 + (b[1] - 0x80)) * 64 + (b[2] - 0x80)) * 64)
  {
  }

  /** What is lost is marked: bytes that are not UTF-8 leave a replacement character. */
  lemma {:induction false} LossIsMarked(b: seq<byte>)
    requires !IsUtf8(b)
    ensures '\U{FFFD}' in Lossy(b)
  {
    hide First;
    var p := First(b);
    assert Lossy(b)[0] == if p.Good? then p.c else REPLACEMENT;
    if p.Good? {
      LossIsMarked(b[p.len..]);
      assert Lossy(b)[1..] == Lossy(b[p.len..]);
    }
  }

  /** A broken sequence is given up before the first byte that does not fit, and not earlier. */
  lemma BrokenSequence(b: seq<byte>)
    requires |b| > 0 && First(b).Bad?
    ensures var n := First(b).len;
            && (n > 1 ==> 0xE0 <= b[0] < 0xF5 && forall i :: 1 <= i < n ==> 0x80 <= b[i] < 0xC0)
            && (n > 2 ==> b[0] >= 0xF0)
            && (n < |b| && b[0] >= 0xF0 && n > 1 ==> !(0x80 <= b[n] < 0xC0))
            && (n == 2 && b[0] < 0xF0 && 2 < |b| ==> !(0x80 <= b[2] < 0xC0))
  {
  }
}
