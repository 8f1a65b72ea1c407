/** Bytes, C strings and the small sequence facts the other modules share. */
module Bytes {

  datatype Option<+T> = None | Some(value: T)

  type byte = b: int | 0 <= b < 256

  const NUL: byte := 0
  const LF: byte := 10

  function Min(a: nat, b: nat): nat {
    if a < b then a else b
  }

  /** Concatenation of a list of byte strings. */
  function Flatten(parts: seq<seq<byte>>): seq<byte> {
    if parts == [] then [] else parts[0] + Flatten(parts[1..])
  }

  /** The value of a C string stored in `s`: everything before the first NUL. */
  function CString(s: seq<byte>): (t: seq<byte>)
    ensures |t| <= |s| && t == s[..|t|] && NUL !in t
    ensures |t| < |s| ==> s[|t|] == NUL
  {
    if s == [] || s[0] == NUL then [] else [s[0]] + CString(s[1..])
  }

  lemma CStringOfPlain(s: seq<byte>)
    requires NUL !in s
    ensures CString(s) == s
  {
  }

  /** C's isspace in the default locale. */
  predicate IsSpace(b: byte) {
    b == 32 || 9 <= b <= 13
  }

  predicate IsDigit(b: byte) {
    48 <= b <= 57
  }

  /** Horizontal and vertical tab, line feed, form feed, carriage return and the blank, and nothing else;
      the digits are those of ASCII. */
  lemma Classes(b: byte)
    ensures IsSpace(b) <==> b in {9, 10, 11, 12, 13, 32}
    ensures IsDigit(b) <==> b as char in "0123456789"
  {
    if IsDigit(b) {
      assert b as char == "0123456789"[b - 48];
    }
  }

  /** `s` stands in `buf` at offset `at`. */
  predicate At(buf: seq<byte>, at: nat, s: seq<byte>) {
    at + |s| <= |buf| && buf[at..at + |s|] == s
  }

  lemma AtSplit(buf: seq<byte>, at: nat, a: seq<byte>, b: seq<byte>)
    requires At(buf, at, a + b)
    ensures At(buf, at, a) && At(buf, at + |a|, b)
  {
    assert buf[at..at + |a|] == buf[at..at + |a + b|][..|a|] == a;
    assert buf[at + |a|..at + |a| + |b|] == buf[at..at + |a + b|][|a|..] == b;
  }

  /** The value C's conversion to a 32-bit `int` gives (two's complement). */
  function ToInt32(v: int): (r: int)
    ensures -0x8000_0000 <= r < 0x8000_0000
    ensures (v - r) % 0x1_0000_0000 == 0
    ensures -0x8000_0000 <= v < 0x8000_0000 ==> r == v
  {
    var m := v % 0x1_0000_0000;
    if m < 0x8000_0000 then m else m - 0x1_0000_0000
  }

  predicate Digits(s: seq<byte>) {
    forall i :: 0 <= i < |s| ==> IsDigit(s[i])
  }

  function DecimalValue(s: seq<byte>): nat
    requires Digits(s)
  {
    if s == [] then 0
    else
      assert IsDigit(s[|s| - 1]);
      DecimalValue(s[..|s| - 1]) * 10 + (s[|s| - 1] as int - 48)
  }

  /** How many leading bytes of `s` are decimal digits. */
  function DigitRun(s: seq<byte>): (n: nat)
    ensures n <= |s| && Digits(s[..n])
    ensures n < |s| ==> !IsDigit(s[n])
  {
    if s == [] || !IsDigit(s[0]) then 0
    else
      var n := DigitRun(s[1..]);
      assert s[..1 + n] == [s[0]] + s[1..][..n];
      1 + n
  }

  lemma {:induction false} DigitRunOfDigits(s: seq<byte>)
    requires Digits(s)
    ensures DigitRun(s) == |s|
  {
    if s != [] {
      DigitRunOfDigits(s[1..]);
    }
  }
}
