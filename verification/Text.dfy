/**
  Byte strings and the library routines the rest of the model leans on.

  A Go string is a sequence of bytes.  Here it is a Dafny `string` in which every
  character stands for the byte with that code; `IsByteString` says so where the
  numeric value of a byte matters.
 */
module Text {

  datatype Option<+T> = None | Some(value: T)

  /** Go's `(value, error)` return, with the error reduced to its kind. */
  datatype Result<+T, +E> = Ok(value: T) | Err(error: E)

  predicate IsByteString(s: string) {
    forall i | 0 <= i < |s| :: s[i] as int < 256
  }

  lemma ConcatAssoc<T>(a: seq<T>, b: seq<T>, c: seq<T>)
    ensures a + b + c == a + (b + c)
  {
  }

  lemma ConsConcat<T>(s: seq<T>, t: seq<T>)
    requires s != []
    ensures s + t == [s[0]] + (s[1..] + t)
  {
    assert s == [s[0]] + s[1..];
  }

  // ---------------------------------------------------------------- searching

  /** `strings.IndexByte`: the first position of `c`, or -1. */
  function IndexOf(s: string, c: char): (i: int)
    ensures -1 <= i < |s|
    ensures i < 0 ==> c !in s
    ensures i >= 0 ==> s[i] == c && c !in s[..i]
  {
    if s == "" then -1
    else if s[0] == c then 0
    else
      var j := IndexOf(s[1..], c);
      if j < 0 then -1
      else
        assert s[..j + 1] == [s[0]] + s[1..][..j];
        j + 1
  }

  lemma {:induction false} IndexOfUnique(s: string, c: char, i: nat)
    requires i < |s| && s[i] == c && c !in s[..i]
    ensures IndexOf(s, c) == i
  {
    if i > 0 {
      assert s[0] == s[..i][0];
      assert s[..i][1..] == s[1..][..i - 1];
      IndexOfUnique(s[1..], c, i - 1);
    }
  }

  /** `strings.LastIndexByte`: the last position of `c`, or -1. */
  function LastIndexOf(s: string, c: char): (i: int)
    ensures -1 <= i < |s|
    ensures i < 0 ==> c !in s
    ensures i >= 0 ==> s[i] == c && c !in s[i + 1..]
  {
    if s == "" then -1
    else if s[|s| - 1] == c then |s| - 1
    else
      var i := LastIndexOf(s[..|s| - 1], c);
      assert s == s[..|s| - 1] + [s[|s| - 1]];
      assert i >= 0 ==> s[i + 1..] == s[..|s| - 1][i + 1..] + [s[|s| - 1]];
      i
  }

  lemma {:induction false} LastIndexOfUnique(s: string, c: char, i: nat)
    requires i < |s| && s[i] == c && c !in s[i + 1..]
    ensures LastIndexOf(s, c) == i
  {
    var n := |s| - 1;
    if i < n {
      assert s[n] == s[i + 1..][n - i - 1];
      assert s[i + 1..][..n - i - 1] == s[..n][i + 1..];
      LastIndexOfUnique(s[..n], c, i);
    }
  }

  // ------------------------------------------------------- splitting, joining

  /** `strings.Split(s, sep)` for a one-byte separator: always at least one piece. */
  function Split(s: string, sep: char): (parts: seq<string>)
    ensures |parts| >= 1
    decreases |s|
  {
    var i := IndexOf(s, sep);
    if i < 0 then [s] else [s[..i]] + Split(s[i + 1..], sep)
  }

  predicate SepFree(parts: seq<string>, sep: char) {
    forall k | 0 <= k < |parts| :: sep !in parts[k]
  }

  lemma {:induction false} SplitPieces(s: string, sep: char)
    ensures SepFree(Split(s, sep), sep)
    decreases |s|
  {
    hide IndexOf;
    var i := IndexOf(s, sep);
    if i >= 0 {
      SplitPieces(s[i + 1..], sep);
      assert Split(s, sep) == [s[..i]] + Split(s[i + 1..], sep);
    } else {
      assert Split(s, sep) == [s];
    }
  }

  /** `strings.Join(parts, sep)`. */
  function Join(parts: seq<string>, sep: char): string {
    if |parts| == 0 then ""
    else if |parts| == 1 then parts[0]
    else parts[0] + [sep] + Join(parts[1..], sep)
  }

  lemma JoinCons(p: string, parts: seq<string>, sep: char)
    requires parts != []
    ensures Join([p] + parts, sep) == p + [sep] + Join(parts, sep)
  {
    assert ([p] + parts)[1..] == parts;
  }

  lemma {:induction false} JoinOfSplit(s: string, sep: char)
    ensures Join(Split(s, sep), sep) == s
    decreases |s|
  {
    hide IndexOf;
    var i := IndexOf(s, sep);
    if i >= 0 {
      var rest := s[i + 1..];
      JoinOfSplit(rest, sep);
      JoinCons(s[..i], Split(rest, sep), sep);
      assert s == s[..i] + [sep] + rest;
    }
  }

  lemma {:induction false} SplitOfJoin(parts: seq<string>, sep: char)
    requires |parts| >= 1
    requires SepFree(parts, sep)
    ensures Split(Join(parts, sep), sep) == parts
  {
    var s := Join(parts, sep);
    if |parts| == 1 {
      assert parts == [parts[0]];
    } else {
      assert s[..|parts[0]|] == parts[0];
      IndexOfUnique(s, sep, |parts[0]|);
      assert s[|parts[0]| + 1..] == Join(parts[1..], sep);
      SplitOfJoin(parts[1..], sep);
      assert parts == [parts[0]] + parts[1..];
    }
  }

  /** Splitting at a known first separator. */
  lemma SplitFirst(a: string, sep: char, b: string)
    requires sep !in a
    ensures Split(a + [sep] + b, sep) == [a] + Split(b, sep)
  {
    var s := a + [sep] + b;
    assert s[..|a|] == a && s[|a|] == sep && s[|a| + 1..] == b;
    IndexOfUnique(s, sep, |a|);
  }

  /** Splitting a concatenation around one separator splits the two halves. */
  lemma {:induction false} SplitAround(a: string, sep: char, b: string)
    ensures Split(a + [sep] + b, sep) == Split(a, sep) + Split(b, sep)
    decreases |a|
  {
    var i := IndexOf(a, sep);
    if i < 0 {
      SplitFirst(a, sep, b);
    } else {
      var head, rest := a[..i], a[i + 1..];
      assert a + [sep] + b == head + [sep] + (rest + [sep] + b);
      SplitFirst(head, sep, rest + [sep] + b);
      SplitAround(rest, sep, b);
    }
  }

  // ------------------------------------------------------------------ decimal

  predicate IsDigit(c: char) { '0' <= c <= '9' }

  predicate AllDigits(s: string) { forall i | 0 <= i < |s| :: IsDigit(s[i]) }

  /** `strconv.Itoa` of a non-negative number. */
  function Itoa(n: nat): (s: string)
    ensures s != "" && AllDigits(s)
    ensures n > 0 ==> s[0] != '0'
  {
    if n < 10 then [(n + '0' as int) as char]
    else Itoa(n / 10) + [(n % 10 + '0' as int) as char]
  }

  /** The number a string of digits denotes. */
  function DigitsValue(s: string): nat
    requires AllDigits(s)
  {
    if s == "" then 0
    else DigitsValue(s[..|s| - 1]) * 10 + (s[|s| - 1] as int - '0' as int)
  }

  const MAX_INT: nat := 0x7FFF_FFFF_FFFF_FFFF

  /** `strconv.Atoi` of a string of digits: a 64-bit int, or an error out of range. */
  function Atoi(s: string): Option<nat>
    requires AllDigits(s)
  {
    if s != "" && DigitsValue(s) <= MAX_INT then Some(DigitsValue(s)) else None
  }

  lemma {:induction false} ItoaValue(n: nat)
    ensures DigitsValue(Itoa(n)) == n
  {
    var s := Itoa(n);
    if n < 10 {
      assert s[..0] == "";
    } else {
      ItoaValue(n / 10);
      assert s[..|s| - 1] == Itoa(n / 10);
    }
  }

  // ---------------------------------------------------------------------- hex

  function HexDigit(d: nat): (c: char)
    requires d < 16
    ensures IsDigit(c) || 'a' <= c <= 'f'
    ensures Unhex(c) == Some(d)
  {
    if d < 10 then (d + '0' as int) as char else (d - 10 + 'a' as int) as char
  }

  /** The value of a hexadecimal digit in either case. */
  function Unhex(c: char): (d: Option<nat>)
    ensures d.Some? ==> d.value < 16
    ensures d.Some? <==> '0' <= c <= '9' || 'a' <= c <= 'f' || 'A' <= c <= 'F'
  {
    if '0' <= c <= '9' then Some(c as int - '0' as int)
    else if 'a' <= c <= 'f' then Some(c as int - 'a' as int + 10)
    else if 'A' <= c <= 'F' then Some(c as int - 'A' as int + 10)
    else None
  }

  /** The lowest `k` hexadecimal digits of `n`, lower case. */
  function Hex(n: nat, k: nat): (s: string)
    ensures |s| == k
    ensures forall i | 0 <= i < k :: IsDigit(s[i]) || 'a' <= s[i] <= 'f'
  {
    if k == 0 then "" else Hex(n / 16, k - 1) + [HexDigit(n % 16)]
  }

  function HexValue(s: string): (v: Option<nat>)
    ensures v.Some? ==> v.value < Pow16(|s|)
  {
    if s == "" then Some(0)
    else
      match (HexValue(s[..|s| - 1]), Unhex(s[|s| - 1]))
      case (Some(hi), Some(lo)) => Some(hi * 16 + lo)
      case _ => None
  }

  function Pow16(k: nat): nat { if k == 0 then 1 else 16 * Pow16(k - 1) }

  lemma {:induction false} HexRoundTrip(n: nat, k: nat)
    requires n < Pow16(k)
    ensures HexValue(Hex(n, k)) == Some(n)
  {
    if k > 0 {
      HexRoundTrip(n / 16, k - 1);
      assert Hex(n, k)[..k - 1] == Hex(n / 16, k - 1);
    }
  }

  lemma HexRoundTrips()
    ensures Pow16(2) == 256 && Pow16(4) == 65536 && Pow16(8) == 4294967296
  {
    assert Pow16(3) == 4096;
    assert Pow16(6) == 16777216;
    assert Pow16(7) == 268435456;
  }

  const DIGITS: string := "0123456789abcdef"

  lemma HexDigitIs(d: nat)
    requires d < 16
    ensures HexDigit(d) == DIGITS[d]
  {
  }

  lemma HexStep(hi: nat, d: nat, k: nat)
    requires d < 16
    ensures Hex(hi * 16 + d, k + 1) == Hex(hi, k) + [DIGITS[d]]
  {
    HexDigitIs(d);
    hide DIGITS;
    assert (hi * 16 + d) / 16 == hi && (hi * 16 + d) % 16 == d;
  }

  lemma HexOfTwo(a: nat, b: nat)
    requires a < 16 && b < 16
    ensures Hex(a * 16 + b, 2) == [DIGITS[a], DIGITS[b]]
  {
    HexStep(0, a, 0);
    HexStep(a, b, 1);
    assert Hex(0, 0) == "" && 0 * 16 + a == a;
    hide DIGITS;
    hide HexDigit;
  }

  lemma HexOfFour(a: nat, b: nat, c: nat, d: nat)
    requires a < 16 && b < 16 && c < 16 && d < 16
    ensures Hex(((a * 16 + b) * 16 + c) * 16 + d, 4) == [DIGITS[a], DIGITS[b], DIGITS[c], DIGITS[d]]
  {
    hide *;
    HexOfTwo(a, b);
    HexStep(a * 16 + b, c, 2);
    HexStep((a * 16 + b) * 16 + c, d, 3);
  }
}
