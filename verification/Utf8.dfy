/**
 What a JSON round trip does to a string: encoding keeps well-formed UTF-8 and turns every byte that
 is not part of it into the replacement character.
 */
module Utf8 {
  import opened SignedPayload

  /** The replacement character U+FFFD. */
  const REPLACEMENT: Bytes := [0xEF, 0xBF, 0xBD]

  predicate Continues(s: Bytes, k: nat, low: Byte, high: Byte) {
    k < |s| && low <= s[k] <= high
  }

  predicate Tail(s: Bytes, k: nat) {
    Continues(s, k, 0x80, 0xBF)
  }

  /** The length of the character `s` begins with, or 0 if it begins with none (section 4 of RFC 3629). */
  function RuneLength(s: Bytes): (n: nat)
    ensures n <= |s| && n <= 4
  {
    if s == [] then 0
    else if s[0] < 0x80 then 1
    else if 0xC2 <= s[0] <= 0xDF then (if Tail(s, 1) then 2 else 0)
    else if 0xE0 <= s[0] <= 0xEF then
      var second := Continues(s, 1, if s[0] == 0xE0 then 0xA0 else 0x80, if s[0] == 0xED then 0x9F else 0xBF);
      if second && Tail(s, 2) then 3 else 0
    else if 0xF0 <= s[0] <= 0xF4 then
      var second := Continues(s, 1, if s[0] == 0xF0 then 0x90 else 0x80, if s[0] == 0xF4 then 0x8F else 0xBF);
      if second && Tail(s, 2) && Tail(s, 3) then 4 else 0
    else 0
  }

  /** A character that UTF-8 encodes: any code point but the surrogates. */
  predicate IsScalar(c: nat) {
    c < 0xD800 || 0xE000 <= c < 0x11_0000
  }

  /** Its encoding (section 3 of RFC 3629). */
  function Rune(c: nat): Bytes
    requires IsScalar(c)
  {
    if c < 0x80 then [c]
    else if c < 0x800 then [0xC0 + c / 0x40, 0x80 + c % 0x40]
    else if c < 0x1_0000 then [0xE0 + c / 0x1000, 0x80 + c / 0x40 % 0x40, 0x80 + c % 0x40]
    else [0xF0 + c / 0x4_0000, 0x80 + c / 0x1000 % 0x40, 0x80 + c / 0x40 % 0x40, 0x80 + c % 0x40]
  }

  /** The six bits of a byte that is not the first. */
  function Bits(b: Byte): int {
    b as int - 0x80
  }

  /** The code point that the `n` bytes of a character stand for. */
  function CodePoint(s: Bytes, n: nat): int
    requires 1 <= n <= |s| && n <= 4
  {
    var first := s[0] as int;
    if n == 1 then first
    else if n == 2 then (first - 0xC0) * 0x40 + Bits(s[1])
    else if n == 3 then ((first - 0xE0) * 0x40 + Bits(s[1])) * 0x40 + Bits(s[2])
    else (((first - 0xF0) * 0x40 + Bits(s[1])) * 0x40 + Bits(s[2])) * 0x40 + Bits(s[3])
  }

  lemma SixBits(high: int, low: int)
    requires 0 <= low < 0x40
    ensures (high * 0x40 + low) / 0x40 == high && (high * 0x40 + low) % 0x40 == low
  {
  }

  lemma Shifts(c: nat)
    ensures c / 0x1000 == c / 0x40 / 0x40 && c / 0x4_0000 == c / 0x40 / 0x40 / 0x40
  {
  }

  /** Every encoded character is recognized. */
  lemma RuneIsRecognized(c: nat, rest: Bytes)
    requires IsScalar(c)
    ensures RuneLength(Rune(c) + rest) == |Rune(c)|
  {
  }

  /** Nothing else is: what is recognized is the encoding of its code point. */
  lemma RecognizedIsRune(s: Bytes)
    requires RuneLength(s) > 0
    ensures var c := CodePoint(s, RuneLength(s)); c >= 0 && IsScalar(c) && Rune(c) == s[..RuneLength(s)]
  {
    var n := RuneLength(s);
    var c := CodePoint(s, n);
    if n == 2 {
      SixBits(s[0] as int - 0xC0, Bits(s[1]));
    } else if n == 3 {
      var high := (s[0] as int - 0xE0) * 0x40 + Bits(s[1]);
      SixBits(s[0] as int - 0xE0, Bits(s[1]));
      SixBits(high, Bits(s[2]));
      Shifts(c);
    } else if n == 4 {
      var high := (s[0] as int - 0xF0) * 0x40 + Bits(s[1]);
      var middle := high * 0x40 + Bits(s[2]);
      SixBits(s[0] as int - 0xF0, Bits(s[1]));
      SixBits(high, Bits(s[2]));
      SixBits(middle, Bits(s[3]));
      Shifts(c);
    }
  }

  predicate Valid(s: Bytes) {
    s == [] || (RuneLength(s) > 0 && Valid(s[RuneLength(s)..]))
  }

  function Repaired(s: Bytes): Bytes {
    if s == [] then []
    else if RuneLength(s) == 0 then REPLACEMENT + Repaired(s[1..])
    else s[..RuneLength(s)] + Repaired(s[RuneLength(s)..])
  }

  lemma {:induction false} RepairedLength(s: Bytes)
    ensures if Valid(s) then Repaired(s) == s else |Repaired(s)| > |s|
  {
    if s != [] {
      if RuneLength(s) == 0 {
        RepairedLength(s[1..]);
      } else {
        RepairedLength(s[RuneLength(s)..]);
        assert s[..RuneLength(s)] + s[RuneLength(s)..] == s;
      }
    }
  }

  /** A string survives a JSON round trip if and only if it is well-formed UTF-8. */
  lemma UnchangedExactlyIfValid(s: Bytes)
    ensures Repaired(s) == s <==> Valid(s)
  {
    RepairedLength(s);
  }

  lemma PrefixDecides(s: Bytes, rest: Bytes)
    requires RuneLength(s) > 0
    ensures RuneLength(s[..RuneLength(s)] + rest) == RuneLength(s)
  {
    var t := s[..RuneLength(s)] + rest;
    assert forall k | 0 <= k < RuneLength(s) :: t[k] == s[k];
  }

  /** Every decoded string is well-formed, so a second round trip changes nothing. */
  lemma {:induction false} RepairedIsValid(s: Bytes)
    ensures Valid(Repaired(s))
  {
    if s != [] {
      if RuneLength(s) == 0 {
        RepairedIsValid(s[1..]);
        assert REPLACEMENT[..RuneLength(REPLACEMENT)] == REPLACEMENT;
        PrefixDecides(REPLACEMENT, Repaired(s[1..]));
        assert Repaired(s)[3..] == Repaired(s[1..]);
      } else {
        RepairedIsValid(s[RuneLength(s)..]);
        PrefixDecides(s, Repaired(s[RuneLength(s)..]));
        assert Repaired(s)[RuneLength(s)..] == Repaired(s[RuneLength(s)..]);
      }
    }
  }
}
