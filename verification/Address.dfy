/**
  The `uds:` address codec: rendering a socket path, parsing an address, and the
  well-formedness check a message's From must pass.
 */
module Address {
  import opened Text

  /** The bytes an address carries unescaped. */
  predicate AddrSafe(b: char) {
    || 'A' <= b <= 'Z' || 'a' <= b <= 'z' || '0' <= b <= '9'
    || b == ':' || b == '_' || b == '/' || b == '.' || b == '\\' || b == '-'
  }

  function UpperHexDigit(d: nat): (c: char)
    requires d < 16
    ensures Unhex(c) == Some(d) && IsUpperHex(c)
  {
    if d < 10 then (d + '0' as int) as char else (d - 10 + 'A' as int) as char
  }

  predicate IsUpperHex(c: char) { '0' <= c <= '9' || 'A' <= c <= 'F' }

  function RenderByte(b: char): string
    requires b as int < 256
  {
    if AddrSafe(b) then [b]
    else ['%', UpperHexDigit(b as int / 16), UpperHexDigit(b as int % 16)]
  }

  function RenderBytes(path: string): string
    requires IsByteString(path)
  {
    if path == "" then "" else RenderByte(path[0]) + RenderBytes(path[1..])
  }

  /** `Address(socketPath)`. */
  function Address(path: string): string
    requires IsByteString(path)
  {
    "uds:" + RenderBytes(path)
  }

  method RenderAddress(path: string) returns (b: string)
    requires IsByteString(path)
    ensures b == Address(path)
  {
    b := "uds:";
    var i := 0;
    while i < |path|
      invariant 0 <= i <= |path|
      invariant b + RenderBytes(path[i..]) == Address(path)
    {
      var c := path[i];
      assert path[i..][1..] == path[i + 1..];
      ConcatAssoc(b, RenderByte(c), RenderBytes(path[i + 1..]));
      if AddrSafe(c) {
        b := b + [c];
      } else {
        b := b + ['%', UpperHexDigit(c as int / 16), UpperHexDigit(c as int % 16)];
      }
      i := i + 1;
    }
  }

  /** A percent sign and two hexadecimal digits of either case. */
  predicate StartsWithEscape(s: string) {
    |s| >= 3 && s[0] == '%' && Unhex(s[1]).Some? && Unhex(s[2]).Some?
  }

  function EscapedByte(s: string): (b: char)
    requires StartsWithEscape(s)
    ensures b as int < 256
  {
    (Unhex(s[1]).value * 16 + Unhex(s[2]).value) as char
  }

  /** `percentDecode`: anything that is not a complete escape is copied. */
  function PercentDecode(s: string): string {
    if s == "" then ""
    else if StartsWithEscape(s) then [EscapedByte(s)] + PercentDecode(s[3..])
    else [s[0]] + PercentDecode(s[1..])
  }

  lemma DecodeEscapeAt(b: string, s: string, i: nat)
    requires i + 2 < |s| && s[i] == '%' && Unhex(s[i + 1]).Some? && Unhex(s[i + 2]).Some?
    ensures var c := (Unhex(s[i + 1]).value * 16 + Unhex(s[i + 2]).value) as char;
            b + PercentDecode(s[i..]) == b + [c] + PercentDecode(s[i + 3..])
  {
    hide Unhex;
    var t := s[i..];
    assert t[0] == s[i] && t[1] == s[i + 1] && t[2] == s[i + 2] && t[3..] == s[i + 3..];
    ConcatAssoc(b, [EscapedByte(t)], PercentDecode(t[3..]));
  }

  lemma DecodeCopyAt(b: string, s: string, i: nat)
    requires i < |s|
    requires !(i + 2 < |s| && s[i] == '%' && Unhex(s[i + 1]).Some? && Unhex(s[i + 2]).Some?)
    ensures b + PercentDecode(s[i..]) == b + [s[i]] + PercentDecode(s[i + 1..])
  {
    hide Unhex;
    var t := s[i..];
    assert t[0] == s[i] && t[1..] == s[i + 1..];
    assert |t| >= 3 ==> t[1] == s[i + 1] && t[2] == s[i + 2];
    ConcatAssoc(b, [s[i]], PercentDecode(t[1..]));
  }

  method DecodePercents(s: string) returns (b: string)
    ensures b == PercentDecode(s)
  {
    if '%' !in s {
      NothingToDecode(s);
      return s;
    }
    hide PercentDecode;
    hide Unhex;
    b := "";
    var i := 0;
    assert s[0..] == s && "" + PercentDecode(s) == PercentDecode(s);
    while i < |s|
      invariant 0 <= i <= |s|
      invariant b + PercentDecode(s[i..]) == PercentDecode(s)
    {
      if s[i] == '%' && i + 2 < |s| {
        var hi, lo := Unhex(s[i + 1]), Unhex(s[i + 2]);
        if hi.Some? && lo.Some? {
          DecodeEscapeAt(b, s, i);
          b := b + [(hi.value * 16 + lo.value) as char];
          i := i + 3;
          continue;
        }
      }
      DecodeCopyAt(b, s, i);
      b := b + [s[i]];
      i := i + 1;
    }
    DecodeNothing(s);
  }

  lemma DecodeNothing(s: string)
    ensures PercentDecode(s[|s|..]) == ""
  {
  }

  lemma {:induction false} NothingToDecode(s: string)
    requires '%' !in s
    ensures PercentDecode(s) == s
  {
    if s != "" {
      NothingToDecode(s[1..]);
    }
  }

  datatype ParseError = NotAnAddress

  /** `ParseAddress`: a `uds:` address or a bare absolute path. */
  function ParseAddress(addr: string): Result<string, ParseError> {
    if "uds:" <= addr then Ok(PercentDecode(addr[4..]))
    else if "/" <= addr then Ok(addr)
    else Err(NotAnAddress)
  }

  predicate ValidRest(s: string) {
    || s == ""
    || (AddrSafe(s[0]) && ValidRest(s[1..]))
    || (StartsWithEscape(s) && ValidRest(s[3..]))
  }

  /** What `validAddress` accepts. */
  predicate ValidAddress(addr: string) { "uds:" <= addr && ValidRest(addr[4..]) }

  method CheckAddress(addr: string) returns (ok: bool)
    ensures ok == ValidAddress(addr)
  {
    if !("uds:" <= addr) {
      return false;
    }
    var i := 4;
    while i < |addr|
      invariant 4 <= i <= |addr|
      invariant ValidAddress(addr) == ValidRest(addr[i..])
    {
      var b := addr[i];
      assert addr[i..][1..] == addr[i + 1..];
      if AddrSafe(b) {
        i := i + 1;
        continue;
      }
      if b != '%' || i + 2 >= |addr| {
        return false;
      }
      assert addr[i..][3..] == addr[i + 3..];
      if Unhex(addr[i + 1]).None? {
        return false;
      }
      if Unhex(addr[i + 2]).None? {
        return false;
      }
      i := i + 3;
    }
    return true;
  }

  // ------------------------------------------------------------------ the laws

  /** Every escape is in upper case and stands for a byte that needs escaping. */
  predicate CanonicalRest(s: string) {
    || s == ""
    || (AddrSafe(s[0]) && CanonicalRest(s[1..]))
    || (StartsWithEscape(s) && IsUpperHex(s[1]) && IsUpperHex(s[2])
        && !AddrSafe(EscapedByte(s)) && CanonicalRest(s[3..]))
  }

  predicate Canonical(addr: string) { "uds:" <= addr && CanonicalRest(addr[4..]) }

  lemma {:induction false} DecodeInvertsRender(path: string)
    requires IsByteString(path)
    ensures PercentDecode(RenderBytes(path)) == path
    ensures CanonicalRest(RenderBytes(path))
  {
    if path != "" {
      var rest := RenderBytes(path[1..]);
      DecodeInvertsRender(path[1..]);
      if AddrSafe(path[0]) {
        assert RenderBytes(path)[1..] == rest;
      } else {
        assert RenderBytes(path)[3..] == rest;
      }
    }
  }

  lemma RenderInvertsEscape(s: string)
    requires StartsWithEscape(s) && IsUpperHex(s[1]) && IsUpperHex(s[2]) && !AddrSafe(EscapedByte(s))
    ensures RenderByte(EscapedByte(s)) == s[..3]
  {
    var hi, lo := Unhex(s[1]).value, Unhex(s[2]).value;
    assert (hi * 16 + lo) / 16 == hi && (hi * 16 + lo) % 16 == lo;
  }

  lemma {:induction false} RenderInvertsDecode(s: string)
    requires CanonicalRest(s)
    ensures IsByteString(PercentDecode(s)) && RenderBytes(PercentDecode(s)) == s
  {
    hide EscapedByte;
    hide Unhex;
    if s != "" {
      var n := if AddrSafe(s[0]) then 1 else 3;
      RenderInvertsDecode(s[n..]);
      assert PercentDecode(s)[1..] == PercentDecode(s[n..]);
      assert s == s[..n] + s[n..];
      if n == 3 {
        RenderInvertsEscape(s);
      }
    }
  }

  /** Parsing a rendered address returns the socket path, whatever bytes it has. */
  lemma ParseInvertsAddress(path: string)
    requires IsByteString(path)
    ensures ParseAddress(Address(path)) == Ok(path)
    ensures Canonical(Address(path))
  {
    assert Address(path)[4..] == RenderBytes(path);
    DecodeInvertsRender(path);
  }

  /** Rendering what an address parses to gives the address back exactly when it is canonical. */
  lemma AddressInvertsParseIff(addr: string)
    requires "uds:" <= addr && IsByteString(PercentDecode(addr[4..]))
    ensures Address(PercentDecode(addr[4..])) == addr <==> Canonical(addr)
  {
    var p := PercentDecode(addr[4..]);
    assert addr == addr[..4] + addr[4..];
    assert Address(p)[4..] == RenderBytes(p);
    DecodeInvertsRender(p);
    if Canonical(addr) {
      RenderInvertsDecode(addr[4..]);
    }
  }

  lemma {:induction false} CanonicalIsValid(s: string)
    requires CanonicalRest(s)
    ensures ValidRest(s)
  {
    if s != "" {
      CanonicalIsValid(if AddrSafe(s[0]) then s[1..] else s[3..]);
    }
  }

  /** How often `PercentDecode` copies a percent sign because no complete escape follows it. */
  function LiteralPercents(s: string): nat {
    if s == "" then 0
    else if StartsWithEscape(s) then LiteralPercents(s[3..])
    else (if s[0] == '%' then 1 else 0) + LiteralPercents(s[1..])
  }

  /** The bytes of a valid address, percent signs apart, are all safe. */
  predicate SafeApartFromPercents(s: string) {
    forall i | 0 <= i < |s| :: AddrSafe(s[i]) || s[i] == '%'
  }

  /** An address is valid exactly when decoding it never falls back on a literal percent sign. */
  lemma {:induction false} ValidIffNoFallback(s: string)
    ensures ValidRest(s) <==> SafeApartFromPercents(s) && LiteralPercents(s) == 0
  {
    if s != "" {
      if StartsWithEscape(s) {
        ValidIffNoFallback(s[3..]);
        assert s == s[..3] + s[3..];
        assert SafeApartFromPercents(s) <==> SafeApartFromPercents(s[3..]) by {
          assert forall i | 3 <= i < |s| :: s[i] == s[3..][i - 3];
        }
      } else {
        ValidIffNoFallback(s[1..]);
        assert forall i | 1 <= i < |s| :: s[i] == s[1..][i - 1];
      }
    }
  }

  /** What the command line makes of `--from`. */
  function RewriteFrom(addr: string): Result<string, ParseError>
    requires IsByteString(addr)
  {
    match ParseAddress(addr)
    case Err(e) => Err(e)
    case Ok(p) =>
      ParsedIsByteString(addr);
      Ok(Address(p))
  }

  lemma {:induction false} DecodedIsByteString(s: string)
    requires IsByteString(s)
    ensures IsByteString(PercentDecode(s))
  {
    if s != "" {
      DecodedIsByteString(if StartsWithEscape(s) then s[3..] else s[1..]);
    }
  }

  lemma ParsedIsByteString(addr: string)
    requires IsByteString(addr)
    ensures ParseAddress(addr).Ok? ==> IsByteString(ParseAddress(addr).value)
  {
    if "uds:" <= addr {
      DecodedIsByteString(addr[4..]);
    }
  }

  /** A rewritten `--from` is always an acceptable From, and rewriting it again changes nothing. */
  lemma RewriteFromIsIdempotent(addr: string)
    requires IsByteString(addr) && RewriteFrom(addr).Ok?
    ensures var from := RewriteFrom(addr).value;
            && ValidAddress(from) && Canonical(from)
            && IsByteString(from) && RewriteFrom(from) == Ok(from)
            && ParseAddress(from) == ParseAddress(addr)
  {
    ParsedIsByteString(addr);
    var p := ParseAddress(addr).value;
    ParseInvertsAddress(p);
    CanonicalIsValid(Address(p)[4..]);
    ValidIsAscii(Address(p)[4..]);
  }

  /** A valid address holds only ASCII, and no angle bracket, quote or control byte. */
  lemma {:induction false} ValidIsAscii(s: string)
    requires ValidRest(s)
    ensures forall i | 0 <= i < |s| :: 0x20 < s[i] as int < 0x7F && s[i] != '<' && s[i] != '"'
  {
    if s != "" {
      if AddrSafe(s[0]) {
        ValidIsAscii(s[1..]);
      } else {
        ValidIsAscii(s[3..]);
        assert s == s[..3] + s[3..];
      }
    }
  }

  // ------------------------------------------------------------- byte by byte

  const UPPER: string := "0123456789ABCDEF"

  lemma BytesOfConcat(a: string, b: string)
    ensures IsByteString(a + b) <==> IsByteString(a) && IsByteString(b)
  {
    assert forall i | 0 <= i < |a| :: (a + b)[i] == a[i];
    assert forall i | 0 <= i < |b| :: (a + b)[|a| + i] == b[i];
  }

  lemma RenderCons(s: string)
    requires s != "" && IsByteString(s)
    ensures IsByteString(s[1..]) && RenderBytes(s) == RenderByte(s[0]) + RenderBytes(s[1..])
  {
  }

  lemma {:induction false} RenderConcat(a: string, b: string)
    requires IsByteString(a) && IsByteString(b)
    ensures IsByteString(a + b) && RenderBytes(a + b) == RenderBytes(a) + RenderBytes(b)
  {
    assert RenderBytes("") == "";
    hide *;
    BytesOfConcat(a, b);
    if a == "" {
      assert a + b == b && "" + RenderBytes(b) == RenderBytes(b);
    } else {
      assert (a + b)[1..] == a[1..] + b && (a + b)[0] == a[0];
      RenderCons(a);
      RenderCons(a + b);
      RenderConcat(a[1..], b);
      ConcatAssoc(RenderByte(a[0]), RenderBytes(a[1..]), RenderBytes(b));
    }
  }

  lemma UpperHexDigitIs(d: nat)
    requires d < 16
    ensures UpperHexDigit(d) == UPPER[d]
  {
  }

  /** A letter, a digit or one of `:_/.\-` is rendered as itself, any other byte as its two upper-case digits. */
  lemma AddressByByte(path: string, b: char)
    requires IsByteString(path) && b as int < 256
    ensures IsByteString(path + [b]) && Address("") == "uds:"
    ensures Address(path + [b]) == Address(path) +
            if 'A' <= b <= 'Z' || 'a' <= b <= 'z' || '0' <= b <= '9'
               || b == ':' || b == '_' || b == '/' || b == '.' || b == '\\' || b == '-'
            then [b] else ['%', UPPER[b as int / 16], UPPER[b as int % 16]]
  {
    RenderConcat(path, [b]);
    RenderOne(b);
    UpperHexDigitIs(b as int / 16);
    UpperHexDigitIs(b as int % 16);
    assert RenderBytes("") == "" && "uds:" + "" == "uds:";
    hide UPPER;
    hide UpperHexDigit;
    hide RenderBytes;
    ConcatAssoc("uds:", RenderBytes(path), RenderByte(b));
  }

  lemma RenderOne(b: char)
    requires b as int < 256
    ensures RenderBytes([b]) == RenderByte(b)
  {
    hide RenderByte;
    assert [b][1..] == "";
    assert RenderByte(b) + "" == RenderByte(b);
  }

  lemma UnhexOf(c: char, d: nat)
    requires d < 16 && (c == UPPER[d] || c == DIGITS[d])
    ensures Unhex(c) == Some(d)
  {
  }

  /** A percent sign and two hexadecimal digits of either case are decoded as one byte. */
  lemma DecodeEscape(hi: nat, lo: nat, h: char, l: char, s: string)
    requires hi < 16 && lo < 16 && (h == UPPER[hi] || h == DIGITS[hi]) && (l == UPPER[lo] || l == DIGITS[lo])
    ensures PercentDecode(['%', h, l] + s) == [(hi * 16 + lo) as char] + PercentDecode(s)
  {
    UnhexOf(h, hi);
    UnhexOf(l, lo);
    hide UPPER;
    hide DIGITS;
    hide Unhex;
    var t := ['%', h, l] + s;
    assert t[3..] == s && t[1] == h && t[2] == l;
  }

  /** Everything else is itself, a percent sign that introduces no escape included. */
  lemma DecodeCopy(c: char, s: string)
    requires c != '%' || |s| < 2 || Unhex(s[0]).None? || Unhex(s[1]).None?
    ensures PercentDecode("") == "" && PercentDecode([c] + s) == [c] + PercentDecode(s)
  {
    hide Unhex;
    var t := [c] + s;
    assert t[1..] == s;
    assert |s| >= 2 ==> t[1] == s[0] && t[2] == s[1];
  }

  /** A bare absolute path is itself, percent signs and all; what is neither is refused. */
  lemma ParseCases(addr: string)
    ensures "/" <= addr ==> ParseAddress(addr) == Ok(addr)
    ensures "/" <= addr && IsByteString(addr) ==> RewriteFrom(addr) == Ok(Address(addr))
    ensures !("/" <= addr) && !("uds:" <= addr) ==> ParseAddress(addr) == Err(NotAnAddress)
  {
    hide PercentDecode;
    hide RenderBytes;
    assert "/" <= addr ==> addr[0] == '/';
    assert "uds:" <= addr ==> addr[0] == 'u';
  }
}
