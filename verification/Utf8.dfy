/**
  UTF-8 as Go decodes and encodes it (sections 3 and 4 of RFC 3629).

  A malformed sequence decodes one byte at a time, each byte yielding U+FFFD.
 */
module Utf8 {
  import opened Text

  type Rune = r: int | 0 <= r < 0xD800 || 0xE000 <= r <= 0x10FFFF

  const REPLACEMENT: Rune := 0xFFFD

  function EncodeRune(r: Rune): (s: string)
    ensures 1 <= |s| <= 4
    ensures r < 0x80 ==> s == [r as char]
    ensures r >= 0x80 ==> forall i | 0 <= i < |s| :: 0x80 <= s[i] as int < 256
    ensures !Tail(s[0]) && forall i | 1 <= i < |s| :: Tail(s[i])
  {
    if r < 0x80 then [r as char]
    else if r < 0x800 then
      [(0xC0 + r / 64) as char, (0x80 + r % 64) as char]
    else if r < 0x10000 then
      [(0xE0 + r / 4096) as char, (0x80 + r / 64 % 64) as char, (0x80 + r % 64) as char]
    else
      [(0xF0 + r / 262144) as char, (0x80 + r / 4096 % 64) as char,
       (0x80 + r / 64 % 64) as char, (0x80 + r % 64) as char]
  }

  /** A continuation byte, that is, not what `utf8.RuneStart` calls a rune start. */
  predicate Tail(c: char) { 0x80 <= c as int <= 0xBF }

  /** The second byte allowed after lead byte `b` of a three- or four-byte sequence. */
  predicate SecondAllowed(b: int, c: char) {
    && Tail(c)
    && (b == 0xE0 ==> 0xA0 <= c as int)
    && (b == 0xED ==> c as int <= 0x9F)
    && (b == 0xF0 ==> 0x90 <= c as int)
    && (b == 0xF4 ==> c as int <= 0x8F)
  }

  /** Length of the well-formed sequence `s` starts with, or 0 when there is none. */
  function Width(s: string): (w: nat)
    requires s != ""
    ensures w <= 4 && w <= |s|
  {
    var b := s[0] as int;
    if b < 0x80 then 1
    else if 0xC2 <= b <= 0xDF && |s| >= 2 && Tail(s[1]) then 2
    else if 0xE0 <= b <= 0xEF && |s| >= 3 && SecondAllowed(b, s[1]) && Tail(s[2]) then 3
    else if 0xF0 <= b <= 0xF4 && |s| >= 4 && SecondAllowed(b, s[1]) && Tail(s[2]) && Tail(s[3]) then 4
    else 0
  }

  /** The bytes one decoding step consumes. */
  function Step(s: string): (n: nat)
    requires s != ""
    ensures 1 <= n <= |s|
  {
    if Width(s) == 0 then 1 else Width(s)
  }

  /** `utf8.DecodeRuneInString`: U+FFFD for a malformed sequence. */
  function FirstRune(s: string): Rune
    requires s != ""
  {
    var w := Width(s);
    if w == 0 then REPLACEMENT
    else if w == 1 then s[0] as int
    else if w == 2 then (s[0] as int - 0xC0) * 64 + (s[1] as int - 0x80)
    else if w == 3 then
      (s[0] as int - 0xE0) * 4096 + (s[1] as int - 0x80) * 64 + (s[2] as int - 0x80)
    else
      (s[0] as int - 0xF0) * 262144 + (s[1] as int - 0x80) * 4096
      + (s[2] as int - 0x80) * 64 + (s[3] as int - 0x80)
  }

  /** The base-64 digits of a code point are the payloads of its bytes. */
  lemma Base64Digits(a: int, b: int, c: int, d: int)
    requires 0 <= a && 0 <= b < 64 && 0 <= c < 64 && 0 <= d < 64
    ensures var r := a * 262144 + b * 4096 + c * 64 + d;
            && r / 64 == a * 4096 + b * 64 + c && r % 64 == d
            && r / 4096 == a * 64 + b && r / 64 % 64 == c
            && r / 262144 == a && r / 4096 % 64 == b
  {
  }

  lemma EncodeInvertsFour(s: string)
    requires s != "" && Width(s) == 4
    ensures EncodeRune(FirstRune(s)) == s[..4]
  {
    var a, b := s[0] as int - 0xF0, s[1] as int - 0x80;
    var c, d := s[2] as int - 0x80, s[3] as int - 0x80;
    Base64Digits(a, b, c, d);
    assert FirstRune(s) == a * 262144 + b * 4096 + c * 64 + d >= 0x10000;
  }

  lemma EncodeInvertsThree(s: string)
    requires s != "" && Width(s) == 3
    ensures EncodeRune(FirstRune(s)) == s[..3]
  {
    var a, b, c := s[0] as int - 0xE0, s[1] as int - 0x80, s[2] as int - 0x80;
    Base64Digits(0, a, b, c);
    assert FirstRune(s) == a * 4096 + b * 64 + c >= 0x800;
  }

  lemma EncodeInvertsShort(s: string)
    requires s != "" && 1 <= Width(s) <= 2
    ensures EncodeRune(FirstRune(s)) == s[..Width(s)]
  {
    if Width(s) == 2 {
      Base64Digits(0, 0, s[0] as int - 0xC0, s[1] as int - 0x80);
    }
  }

  lemma EncodeInvertsDecode(s: string)
    requires s != "" && Width(s) > 0
    ensures EncodeRune(FirstRune(s)) == s[..Width(s)]
  {
    hide FirstRune;
    hide EncodeRune;
    hide Width;
    if Width(s) == 4 {
      EncodeInvertsFour(s);
    } else if Width(s) == 3 {
      EncodeInvertsThree(s);
    } else {
      EncodeInvertsShort(s);
    }
  }

  lemma DecodeInvertsShort(r: Rune, t: string)
    requires r < 0x800
    ensures Width(EncodeRune(r) + t) == |EncodeRune(r)| && FirstRune(EncodeRune(r) + t) == r
  {
  }

  lemma DecodeInvertsThree(r: Rune, t: string)
    requires 0x800 <= r < 0x10000
    ensures Width(EncodeRune(r) + t) == 3 == |EncodeRune(r)| && FirstRune(EncodeRune(r) + t) == r
  {
    var a, b, c := r / 4096, r / 64 % 64, r % 64;
    assert r == a * 4096 + b * 64 + c;
    var s := EncodeRune(r) + t;
    assert s[0] as int == 0xE0 + a && s[1] as int == 0x80 + b && s[2] as int == 0x80 + c;
    assert a == 0 ==> b >= 0x20;
    assert a == 13 ==> b < 0x20;
  }

  /** The base-64 digits of a code point beyond the basic plane. */
  lemma FourDigits(r: Rune)
    requires 0x10000 <= r
    ensures var a, b, c, d := r / 262144, r / 4096 % 64, r / 64 % 64, r % 64;
            && r == a * 262144 + b * 4096 + c * 64 + d
            && 0 <= a <= 4 && (a == 0 ==> b >= 0x10) && (a == 4 ==> b < 0x10)
  {
    assert r == r / 64 * 64 + r % 64;
    assert r / 64 == r / 4096 * 64 + r / 64 % 64;
    assert r / 4096 == r / 262144 * 64 + r / 4096 % 64;
  }

  lemma EncodedFour(r: Rune)
    requires 0x10000 <= r
    ensures |EncodeRune(r)| == 4
    ensures EncodeRune(r)[0] as int == 0xF0 + r / 262144
    ensures EncodeRune(r)[1] as int == 0x80 + r / 4096 % 64
    ensures EncodeRune(r)[2] as int == 0x80 + r / 64 % 64
    ensures EncodeRune(r)[3] as int == 0x80 + r % 64
  {
  }

  lemma DecodeInvertsFour(r: Rune, t: string)
    requires 0x10000 <= r
    ensures Width(EncodeRune(r) + t) == 4 == |EncodeRune(r)| && FirstRune(EncodeRune(r) + t) == r
  {
    hide Width;
    hide FirstRune;
    FourDigits(r);
    EncodedFour(r);
    hide EncodeRune;
    DecodeFour(EncodeRune(r) + t, r / 262144, r / 4096 % 64, r / 64 % 64, r % 64);
  }

  lemma DecodeFour(s: string, a: int, b: int, c: int, d: int)
    requires |s| >= 4 && s[0] as int == 0xF0 + a && s[1] as int == 0x80 + b
    requires s[2] as int == 0x80 + c && s[3] as int == 0x80 + d
    requires 0 <= a <= 4 && 0 <= b < 64 && 0 <= c < 64 && 0 <= d < 64
    requires (a == 0 ==> b >= 0x10) && (a == 4 ==> b < 0x10)
    ensures Width(s) == 4 && FirstRune(s) == a * 262144 + b * 4096 + c * 64 + d
  {
  }

  lemma DecodeInvertsEncode(r: Rune, t: string)
    ensures Width(EncodeRune(r) + t) == |EncodeRune(r)|
    ensures FirstRune(EncodeRune(r) + t) == r
  {
    hide Width;
    hide FirstRune;
    if r < 0x800 {
      DecodeInvertsShort(r, t);
    } else if r < 0x10000 {
      DecodeInvertsThree(r, t);
    } else {
      DecodeInvertsFour(r, t);
    }
  }

  // ------------------------------------------------------------ whole strings

  function Encode(rs: seq<Rune>): string {
    if rs == [] then "" else EncodeRune(rs[0]) + Encode(rs[1..])
  }

  /** The runes Go's `range` yields over `s`. */
  function Runes(s: string): seq<Rune>
    decreases |s|
  {
    if s == "" then [] else [FirstRune(s)] + Runes(s[Step(s)..])
  }

  /** `utf8.ValidString`. */
  predicate Valid(s: string)
    decreases |s|
  {
    s == "" || (Width(s) > 0 && Valid(s[Width(s)..]))
  }

  /** `s` with every malformed byte replaced by U+FFFD. */
  function Repair(s: string): string { Encode(Runes(s)) }

  lemma EmptyRepair()
    ensures Runes("") == [] && Repair("") == ""
  {
  }

  lemma RepairOfStep(s: string)
    requires s != ""
    ensures Repair(s) == EncodeRune(FirstRune(s)) + Repair(s[Step(s)..])
  {
    hide FirstRune;
    hide Width;
    hide EncodeRune;
    assert Runes(s)[1..] == Runes(s[Step(s)..]);
  }

  lemma RunesOfEncodedRune(r: Rune, t: string)
    ensures Runes(EncodeRune(r) + t) == [r] + Runes(t)
    ensures Valid(EncodeRune(r) + t) <==> Valid(t)
  {
    hide Width;
    hide FirstRune;
    hide EncodeRune;
    var s := EncodeRune(r) + t;
    DecodeInvertsEncode(r, t);
    assert s[Step(s)..] == t;
  }

  lemma {:induction false} RunesOfEncode(rs: seq<Rune>, t: string)
    ensures Runes(Encode(rs) + t) == rs + Runes(t)
    ensures Valid(Encode(rs) + t) <==> Valid(t)
  {
    hide Runes;
    hide Valid;
    hide EncodeRune;
    if rs == [] {
      assert Encode(rs) + t == t;
    } else {
      var rest := Encode(rs[1..]) + t;
      ConcatAssoc(EncodeRune(rs[0]), Encode(rs[1..]), t);
      RunesOfEncodedRune(rs[0], rest);
      RunesOfEncode(rs[1..], t);
      ConsConcat(rs, Runes(t));
    }
  }

  lemma {:induction false} EncodeConcat(a: seq<Rune>, b: seq<Rune>)
    ensures Encode(a + b) == Encode(a) + Encode(b)
  {
    if a == [] {
      assert a + b == b;
    } else {
      assert (a + b)[1..] == a[1..] + b;
      EncodeConcat(a[1..], b);
    }
  }

  /** Encoding the runes of a string gives it back exactly when it was valid. */
  lemma {:induction false} RepairIsIdentityIffValid(s: string)
    ensures Repair(s) == s <==> Valid(s)
    decreases |s|
  {
    hide Width;
    hide FirstRune;
    hide EncodeRune;
    if Valid(s) {
      if s != "" {
        EncodeInvertsDecode(s);
        RepairIsIdentityIffValid(s[Width(s)..]);
        assert Runes(s)[1..] == Runes(s[Width(s)..]);
      }
    } else {
      RunesOfEncode(Runes(s), "");
      assert Encode(Runes(s)) + "" == Encode(Runes(s));
    }
  }

  lemma {:induction false} ValidConcat(a: string, b: string)
    requires Valid(a)
    ensures Valid(a + b) <==> Valid(b)
    ensures Runes(a + b) == Runes(a) + Runes(b)
  {
    RepairIsIdentityIffValid(a);
    RunesOfEncode(Runes(a), b);
  }

  predicate Ascii(s: string) { forall i | 0 <= i < |s| :: s[i] as int < 0x80 }

  lemma {:induction false} AsciiRunes(s: string)
    requires Ascii(s)
    ensures Valid(s) && Repair(s) == s
    ensures |Runes(s)| == |s| && forall i | 0 <= i < |s| :: Runes(s)[i] == s[i] as int
  {
    if s != "" {
      AsciiRunes(s[1..]);
    }
    RepairIsIdentityIffValid(s);
  }

  lemma AsciiIsValid(s: string)
    requires Ascii(s)
    ensures Valid(s)
  {
    AsciiRunes(s);
  }

  /** An ASCII byte occurs in an encoding exactly when that rune was encoded. */
  lemma {:induction false} AsciiInEncode(rs: seq<Rune>, c: char)
    requires c as int < 0x80
    ensures c in Encode(rs) <==> c as int in rs
  {
    if rs != [] {
      AsciiInEncode(rs[1..], c);
      var h := EncodeRune(rs[0]);
      assert c in Encode(rs) <==> c in h || c in Encode(rs[1..]);
      assert rs == [rs[0]] + rs[1..];
      assert c in h <==> c as int == rs[0];
    }
  }

  /** A rune below 0x80 is decoded only from the byte of that value. */
  lemma {:induction false} AsciiInRunes(s: string, r: Rune)
    requires r < 0x80 && r in Runes(s)
    ensures r as char in s
    decreases |s|
  {
    if FirstRune(s) == r {
      if Width(s) > 0 {
        EncodeInvertsDecode(s);
        assert s[..Width(s)][0] == s[0];
      }
    } else {
      AsciiInRunes(s[Step(s)..], r);
    }
  }

  /** UTF-16 code units of a rune sequence (section 2.1 of RFC 2781). */
  function Utf16Units(rs: seq<Rune>): nat {
    if rs == [] then 0 else (if rs[0] < 0x10000 then 1 else 2) + Utf16Units(rs[1..])
  }

  /** One unit for a rune of the basic plane, two for any other. */
  lemma {:induction false} Utf16Concat(a: seq<Rune>, r: Rune)
    ensures Utf16Units([]) == 0 && Utf16Units(a + [r]) == Utf16Units(a) + if r <= 0xFFFF then 1 else 2
  {
    if a == [] {
      assert [r][1..] == [] && a + [r] == [r];
    } else {
      assert (a + [r])[1..] == a[1..] + [r];
      Utf16Concat(a[1..], r);
    }
  }

  lemma {:induction false} Utf16NeverLonger(rs: seq<Rune>)
    ensures Utf16Units(rs) <= |Encode(rs)|
  {
    if rs != [] {
      Utf16NeverLonger(rs[1..]);
    }
  }

  /** A malformed sequence loses one byte to U+FFFD. */
  lemma MalformedByte(s: string)
    requires s != "" && Width(s) == 0
    ensures Runes(s) == [0xFFFD] + Runes(s[1..])
    ensures Repair(s) == [0xEF as char, 0xBF as char, 0xBD as char] + Repair(s[1..])
  {
    assert EncodeRune(0xFFFD) == [0xEF as char, 0xBF as char, 0xBD as char];
    RepairOfStep(s);
    hide Encode;
    hide EncodeRune;
  }
}
