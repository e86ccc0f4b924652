/**
  `sanitizeName`: the sender name an attribution envelope may carry.

  The byte-level code is proved equal to a definition on runes, and the promised
  properties are proved about that definition.
 */
module SenderName {
  import opened Text
  import opened Utf8

  /** The length, in bytes, a name is cut to. */
  const MAX_NAME: nat := 200

  /** The bytes that would break the quoting of an envelope attribute. */
  predicate Breaking(c: char) { c == '"' || c == '<' || c == '>' || c == '\n' || c == '\r' }

  function DropBreaking(s: string): string {
    if s == "" then ""
    else (if Breaking(s[0]) then "" else [s[0]]) + DropBreaking(s[1..])
  }

  /** `unicode.IsControl`. */
  predicate IsControl(r: Rune) { r < 0x20 || 0x7F <= r < 0xA0 }

  function DropControls(rs: seq<Rune>): seq<Rune> {
    if rs == [] then []
    else (if IsControl(rs[0]) then [] else [rs[0]]) + DropControls(rs[1..])
  }

  /** `unicode.IsSpace`. */
  predicate IsSpace(r: Rune) {
    || 9 <= r <= 13 || r == 0x20 || r == 0x85 || r == 0xA0 || r == 0x1680
    || 0x2000 <= r <= 0x200A || r == 0x2028 || r == 0x2029 || r == 0x202F
    || r == 0x205F || r == 0x3000
  }

  predicate AllSpaces(rs: seq<Rune>) { forall i | 0 <= i < |rs| :: IsSpace(rs[i]) }

  function TrimLeft(rs: seq<Rune>): (t: seq<Rune>)
    ensures |t| <= |rs| && t == rs[|rs| - |t|..] && AllSpaces(rs[..|rs| - |t|])
    ensures t != [] ==> !IsSpace(t[0])
  {
    if rs != [] && IsSpace(rs[0]) then
      var t := TrimLeft(rs[1..]);
      assert rs[..|rs| - |t|] == [rs[0]] + rs[1..][..|rs| - 1 - |t|];
      t
    else rs
  }

  function TrimRight(rs: seq<Rune>): (t: seq<Rune>)
    ensures t <= rs && AllSpaces(rs[|t|..])
    ensures t != [] ==> !IsSpace(t[|t| - 1])
  {
    var n := |rs| - 1;
    if rs != [] && IsSpace(rs[n]) then
      var t := TrimRight(rs[..n]);
      assert rs[|t|..] == rs[..n][|t|..] + [rs[n]];
      t
    else rs
  }

  /** `strings.TrimSpace` on runes. */
  function Trim(rs: seq<Rune>): seq<Rune> { TrimRight(TrimLeft(rs)) }

  predicate Trimmed(rs: seq<Rune>) {
    rs != [] ==> !IsSpace(rs[0]) && !IsSpace(rs[|rs| - 1])
  }

  /** The longest prefix of `rs` whose encoding takes at most `budget` bytes. */
  function Fit(rs: seq<Rune>, budget: nat): (p: seq<Rune>)
    ensures p <= rs && |Encode(p)| <= budget
  {
    if rs == [] || |EncodeRune(rs[0])| > budget then []
    else
      var p := Fit(rs[1..], budget - |EncodeRune(rs[0])|);
      assert ([rs[0]] + p)[1..] == p;
      [rs[0]] + p
  }

  /** What is left of a name before it is cut. */
  function Kept(name: string): seq<Rune> { Trim(DropControls(Runes(DropBreaking(name)))) }

  function CleanRunes(name: string): seq<Rune> {
    if |Encode(Kept(name))| > MAX_NAME then Trim(Fit(Kept(name), MAX_NAME)) else Kept(name)
  }

  /** The sanitised name. */
  function Clean(name: string): string { Encode(CleanRunes(name)) }

  /** `strings.TrimSpace` on valid UTF-8, the only text it is given here. */
  function TrimSpace(s: string): string
    requires Valid(s)
  {
    Encode(Trim(Runes(s)))
  }

  method SanitizeName(name: string) returns (clean: string)
    ensures clean == Clean(name)
  {
    hide Trim;
    hide Fit;
    hide Encode;
    hide Runes;
    hide Valid;
    clean := DropBreaking(name);
    ghost var runes := DropControls(Runes(clean));
    clean := Encode(DropControls(Runes(clean)));
    ValidEncode(runes);
    clean := TrimSpace(clean);
    if |clean| > MAX_NAME {
      ghost var kept := Trim(runes);
      CutPoint(kept, MAX_NAME);
      var cut := MAX_NAME;
      while cut > 0 && Tail(clean[cut])
        invariant |Encode(Fit(kept, MAX_NAME))| <= cut <= MAX_NAME
      {
        cut := cut - 1;
      }
      ValidEncode(Fit(kept, MAX_NAME));
      clean := TrimSpace(clean[..cut]);
    }
  }

  // ------------------------------------------------------------------ the cut

  lemma ValidEncode(rs: seq<Rune>)
    ensures Valid(Encode(rs)) && Runes(Encode(rs)) == rs
  {
    RunesOfEncode(rs, "");
    assert Encode(rs) + "" == Encode(rs);
    assert rs + Runes("") == rs;
  }

  /** No whole-rune prefix longer than `Fit` fits. */
  lemma {:induction false} FitIsLongest(rs: seq<Rune>, budget: nat, k: nat)
    requires k <= |rs| && |Encode(rs[..k])| <= budget
    ensures k <= |Fit(rs, budget)|
  {
    if k > 0 {
      assert rs[..k][1..] == rs[1..][..k - 1];
      FitIsLongest(rs[1..], budget - |EncodeRune(rs[0])|, k - 1);
    }
  }

  /** The walk back from byte `budget` of `s` over continuation bytes leaves `p`, at most three bytes shorter. */
  ghost predicate CutLeaves(s: string, budget: nat, p: string) {
    && |p| <= budget <= |p| + 3 && budget < |s|
    && s[..|p|] == p && !Tail(s[|p|])
    && forall i | |p| < i <= budget :: Tail(s[i])
  }

  /** Walking back from byte `budget` leaves the longest whole-rune prefix that fits. */
  lemma {:induction false} CutPoint(rs: seq<Rune>, budget: nat)
    requires |Encode(rs)| > budget
    ensures CutLeaves(Encode(rs), budget, Encode(Fit(rs, budget)))
  {
    var u := EncodeRune(rs[0]);
    if |u| <= budget {
      EncodeFit(rs, budget);
      hide *;
      CutPoint(rs[1..], budget - |u|);
      CutShift(u, Encode(rs[1..]), budget - |u|, Encode(Fit(rs[1..], budget - |u|)));
    } else {
      FirstRuneDoesNotFit(rs, budget);
    }
  }

  lemma EncodeFit(rs: seq<Rune>, budget: nat)
    requires rs != [] && |EncodeRune(rs[0])| <= budget
    ensures Encode(rs) == EncodeRune(rs[0]) + Encode(rs[1..])
    ensures Encode(Fit(rs, budget))
         == EncodeRune(rs[0]) + Encode(Fit(rs[1..], budget - |EncodeRune(rs[0])|))
  {
    var p := Fit(rs[1..], budget - |EncodeRune(rs[0])|);
    hide EncodeRune;
    assert ([rs[0]] + p)[1..] == p;
  }

  lemma FirstRuneDoesNotFit(rs: seq<Rune>, budget: nat)
    requires rs != [] && budget < |EncodeRune(rs[0])|
    ensures Fit(rs, budget) == [] && CutLeaves(Encode(rs), budget, "")
  {
    assert Encode(rs) == EncodeRune(rs[0]) + Encode(rs[1..]);
    hide Tail;
    hide Encode;
  }

  /** Text in front moves the cut along. */
  lemma CutShift(u: string, s: string, budget: nat, p: string)
    requires CutLeaves(s, budget, p)
    ensures CutLeaves(u + s, |u| + budget, u + p)
  {
    hide Tail;
    assert (u + s)[..|u + p|] == u + s[..|p|];
    forall i | |u + p| < i <= |u| + budget ensures Tail((u + s)[i]) {
      assert (u + s)[i] == s[i - |u|];
    }
  }

  // ------------------------------------------------------- what a clean name is

  lemma {:induction false} DropBreakingDrops(s: string)
    ensures forall i | 0 <= i < |DropBreaking(s)| :: !Breaking(DropBreaking(s)[i])
  {
    if s != "" {
      DropBreakingDrops(s[1..]);
    }
  }

  lemma {:induction false} DropBreakingKeeps(s: string)
    requires forall i | 0 <= i < |s| :: !Breaking(s[i])
    ensures DropBreaking(s) == s
  {
    if s != "" {
      DropBreakingKeeps(s[1..]);
    }
  }

  lemma {:induction false} DropControlsDrops(rs: seq<Rune>)
    ensures forall r | r in DropControls(rs) :: !IsControl(r) && r in rs
  {
    if rs != [] {
      DropControlsDrops(rs[1..]);
    }
  }

  lemma {:induction false} DropControlsKeeps(rs: seq<Rune>)
    requires forall r | r in rs :: !IsControl(r)
    ensures DropControls(rs) == rs
  {
    if rs != [] {
      DropControlsKeeps(rs[1..]);
    }
  }

  /** A rune a name may contain: no control, no quote, no angle bracket. */
  predicate Harmless(r: Rune) { !IsControl(r) && !(r < 0x80 && Breaking(r as char)) }

  lemma KeptIsHarmless(name: string)
    ensures forall r | r in Kept(name) :: Harmless(r)
    ensures Trimmed(Kept(name))
  {
    var bytes := DropBreaking(name);
    var rs := DropControls(Runes(bytes));
    DropControlsDrops(Runes(bytes));
    forall r | r in Kept(name) ensures Harmless(r) {
      assert r in rs;
      if r < 0x80 {
        AsciiInRunes(bytes, r);
        DropBreakingDrops(name);
      }
    }
  }

  /**
    Every clean name is valid UTF-8 of at most 200 bytes and so at most 200 UTF-16
    units, holds no quote, angle bracket, line break or control rune, and neither
    starts nor ends with white space.
   */
  lemma CleanIsClean(name: string)
    ensures Valid(Clean(name)) && Runes(Clean(name)) == CleanRunes(name)
    ensures |Clean(name)| <= MAX_NAME && Utf16Units(CleanRunes(name)) <= MAX_NAME
    ensures forall r | r in CleanRunes(name) :: Harmless(r)
    ensures forall i | 0 <= i < |Clean(name)| :: !Breaking(Clean(name)[i])
    ensures Trimmed(CleanRunes(name))
  {
    hide Encode;
    hide Runes;
    hide Valid;
    hide Fit;
    hide Kept;
    hide Trim;
    KeptIsHarmless(name);
    var rs := CleanRunes(name);
    ValidEncode(rs);
    if |Encode(Kept(name))| > MAX_NAME {
      TrimShortens(Fit(Kept(name), MAX_NAME));
      TrimIsTrimmed(Fit(Kept(name), MAX_NAME));
    }
    Utf16NeverLonger(rs);
    NoBreakingBytes(rs);
  }

  lemma CleanHasNoBracket(name: string)
    ensures '<' !in Clean(name)
  {
    CleanIsClean(name);
    hide Clean;
  }

  lemma TrimIsTrimmed(rs: seq<Rune>)
    ensures Trimmed(Trim(rs)) && forall r | r in Trim(rs) :: r in rs
  {
    var l := TrimLeft(rs);
    assert Trim(rs) <= l;
  }

  lemma NoBreakingBytes(rs: seq<Rune>)
    requires forall r | r in rs :: Harmless(r)
    ensures forall i | 0 <= i < |Encode(rs)| :: !Breaking(Encode(rs)[i])
  {
    hide Encode;
    forall i | 0 <= i < |Encode(rs)| ensures !Breaking(Encode(rs)[i]) {
      var c := Encode(rs)[i];
      if c as int < 0x80 {
        AsciiInEncode(rs, c);
      }
    }
  }

  lemma TrimShortens(rs: seq<Rune>)
    ensures |Encode(Trim(rs))| <= |Encode(rs)|
  {
    hide Encode;
    hide TrimLeft;
    hide TrimRight;
    hide EncodeRune;
    hide AllSpaces;
    var l := TrimLeft(rs);
    var t := TrimRight(l);
    assert rs == rs[..|rs| - |l|] + l && l == t + l[|t|..];
    EncodeConcat(rs[..|rs| - |l|], l);
    EncodeConcat(t, l[|t|..]);
  }

  /** Sanitising twice is sanitising once. */
  lemma CleanIsIdempotent(name: string)
    ensures Clean(Clean(name)) == Clean(name)
  {
    CleanIsClean(name);
    TrimKeeps(CleanRunes(name));
    hide CleanRunes;
    hide Encode;
    hide Runes;
    hide Trim;
    hide Fit;
    var rs := CleanRunes(name);
    DropBreakingKeeps(Clean(name));
    DropControlsKeeps(rs);
    FixedPoint(Clean(name));
  }

  lemma TrimKeeps(rs: seq<Rune>)
    requires Trimmed(rs)
    ensures Trim(rs) == rs
  {
  }

  lemma FixedPoint(name: string)
    requires DropBreaking(name) == name && DropControls(Runes(name)) == Runes(name)
    requires Trim(Runes(name)) == Runes(name) && Encode(Runes(name)) == name && |name| <= MAX_NAME
    ensures Clean(name) == name
  {
    hide Encode;
    hide Runes;
    hide Trim;
    hide Fit;
  }

  lemma TrimIsEmptyIff(rs: seq<Rune>)
    ensures Trim(rs) == [] <==> AllSpaces(rs)
  {
    var l := TrimLeft(rs);
    assert l == [] ==> rs[..|rs|] == rs;
    assert l != [] ==> l[0] == rs[|rs| - |l|];
  }

  /** Cutting never empties a name that does not start with a space. */
  lemma CutKeepsFirst(rs: seq<Rune>, budget: nat)
    requires rs != [] && !IsSpace(rs[0]) && budget >= 4
    ensures Trim(Fit(rs, budget)) != []
  {
    assert Fit(rs, budget)[0] == rs[0];
    TrimIsEmptyIff(Fit(rs, budget));
  }

  /** A name comes out empty only when nothing but white space survives the filters. */
  lemma CleanIsEmptyIff(name: string)
    ensures Clean(name) == "" <==> AllSpaces(DropControls(Runes(DropBreaking(name))))
  {
    TrimIsEmptyIff(DropControls(Runes(DropBreaking(name))));
    hide Trim;
    hide Fit;
    hide Runes;
    KeptIsHarmless(name);
    if Kept(name) != [] {
      CutKeepsFirst(Kept(name), MAX_NAME);
    }
  }

  // ------------------------------------------------------- which bytes survive

  lemma {:induction false} DropBreakingConcat(a: string, b: string)
    ensures DropBreaking(a + b) == DropBreaking(a) + DropBreaking(b)
  {
    if a == "" {
      assert a + b == b;
    } else {
      assert (a + b)[1..] == a[1..] + b;
      DropBreakingConcat(a[1..], b);
    }
  }

  lemma {:induction false} DropControlsConcat(a: seq<Rune>, b: seq<Rune>)
    ensures DropControls(a + b) == DropControls(a) + DropControls(b)
  {
    if a == [] {
      assert a + b == b;
    } else {
      assert (a + b)[1..] == a[1..] + b;
      DropControlsConcat(a[1..], b);
    }
  }

  lemma DropBreakingOne(c: char)
    ensures DropBreaking([c]) == if Breaking(c) then "" else [c]
  {
    assert [c][1..] == "";
  }

  /** An encoded rune is dropped whole or kept whole. */
  lemma DropBreakingRune(r: Rune)
    ensures DropBreaking(EncodeRune(r)) == if r < 0x80 && Breaking(r as char) then "" else EncodeRune(r)
  {
    if r < 0x80 {
      DropBreakingOne(r as char);
    } else {
      DropBreakingKeeps(EncodeRune(r));
    }
  }

  lemma {:induction false} DropBreakingKeepsValid(rs: seq<Rune>)
    ensures Valid(DropBreaking(Encode(rs)))
  {
    if rs != [] {
      hide Valid;
      hide DropBreaking;
      hide EncodeRune;
      var r, rest := rs[0], DropBreaking(Encode(rs[1..]));
      DropBreakingConcat(EncodeRune(r), Encode(rs[1..]));
      DropBreakingRune(r);
      DropBreakingKeepsValid(rs[1..]);
      RunesOfEncodedRune(r, rest);
      assert "" + rest == rest;
    }
  }

  /** What is decoded from a name around a rune in it. */
  lemma RunesAround(u: string, r: Rune, v: string)
    requires Valid(u) && !(r < 0x80 && Breaking(r as char))
    ensures Runes(DropBreaking(u + EncodeRune(r) + v))
         == Runes(DropBreaking(u)) + [r] + Runes(DropBreaking(v))
    ensures Runes(DropBreaking(u + v)) == Runes(DropBreaking(u)) + Runes(DropBreaking(v))
  {
    RepairIsIdentityIffValid(u);
    DropBreakingKeepsValid(Runes(u));
    DropBreakingRune(r);
    hide Valid;
    hide Runes;
    hide DropBreaking;
    hide EncodeRune;
    var du, dv := DropBreaking(u), DropBreaking(v);
    DropBreakingConcat(u, v);
    DropBreakingConcat(u + EncodeRune(r), v);
    DropBreakingConcat(u, EncodeRune(r));
    ConcatAssoc(du, EncodeRune(r), dv);
    ConcatAssoc(Runes(du), [r], Runes(dv));
    ValidConcat(du, dv);
    ValidConcat(du, EncodeRune(r) + dv);
    RunesOfEncodedRune(r, dv);
  }

  /** A quote, an angle bracket or a line break disappears and takes nothing with it. */
  lemma BreakingByteIsDropped(u: string, c: char, v: string)
    requires c in {'"', '<', '>', '\n', '\r'}
    ensures Clean(u + [c] + v) == Clean(u + v)
  {
    DropBreakingConcat(u + [c], v);
    DropBreakingConcat(u, [c]);
    DropBreakingConcat(u, v);
    DropBreakingOne(c);
    hide DropBreaking;
    assert DropBreaking(u) + "" == DropBreaking(u);
  }

  lemma SameKeptSameClean(a: string, b: string)
    requires Kept(a) == Kept(b)
    ensures Clean(a) == Clean(b)
  {
    hide Kept;
    hide Fit;
    hide Trim;
    hide Encode;
  }

  /** A control rune disappears and takes nothing with it. */
  lemma ControlIsDropped(u: string, r: Rune, v: string)
    requires Valid(u) && (r < 0x20 || 0x7F <= r < 0xA0)
    ensures Clean(u + EncodeRune(r) + v) == Clean(u + v)
  {
    if r == 10 || r == 13 {
      BreakingByteIsDropped(u, r as char, v);
    } else {
      RunesAround(u, r, v);
      hide EncodeRune;
      var a, b := Runes(DropBreaking(u)), Runes(DropBreaking(v));
      DropControlsConcat(a + [r], b);
      DropControlsConcat(a, [r]);
      DropControlsConcat(a, b);
      DropControlsOne(r);
      hide DropControls;
      assert DropControls(a) + [] == DropControls(a);
      SameKeptSameClean(u + EncodeRune(r) + v, u + v);
    }
  }

  /** The runes `strings.TrimSpace` removes. */
  const SPACES: set<int> :=
    {9, 10, 11, 12, 13, 0x20, 0x85, 0xA0, 0x1680, 0x2000, 0x2001, 0x2002, 0x2003, 0x2004, 0x2005, 0x2006,
     0x2007, 0x2008, 0x2009, 0x200A, 0x2028, 0x2029, 0x202F, 0x205F, 0x3000}

  lemma SpacesAre(r: Rune)
    ensures IsSpace(r) <==> r in SPACES
  {
  }

  lemma TrimOfSpace(r: Rune, rs: seq<Rune>)
    requires IsSpace(r)
    ensures Trim([r] + rs) == Trim(rs)
    ensures Trim(rs + [r]) == Trim(rs)
  {
    assert ([r] + rs)[1..] == rs;
    assert TrimLeft([r] + rs) == TrimLeft(rs);
    TrimLeftOfSpace(rs, r);
    hide TrimLeft;
    hide IsSpace;
    var l := TrimLeft(rs);
    TrimRightOfSpace(l, r);
    hide TrimRight;
  }

  lemma TrimRightOfSpace(l: seq<Rune>, r: Rune)
    requires IsSpace(r)
    ensures TrimRight(l + [r]) == TrimRight(l)
  {
    assert (l + [r])[..|l|] == l;
  }

  lemma {:induction false} TrimLeftOfSpace(rs: seq<Rune>, r: Rune)
    requires IsSpace(r)
    ensures TrimLeft(rs + [r]) == if TrimLeft(rs) == [] then [] else TrimLeft(rs) + [r]
  {
    if rs == [] {
      assert [r][1..] == [] && rs + [r] == [r];
    } else {
      assert (rs + [r])[1..] == rs[1..] + [r];
      TrimLeftOfSpace(rs[1..], r);
    }
  }

  /** White space at either end disappears. */
  lemma OuterSpaceIsDropped(u: string, r: Rune)
    requires r in SPACES
    ensures Clean(EncodeRune(r) + u) == Clean(u)
    ensures Valid(u) ==> Clean(u + EncodeRune(r)) == Clean(u)
  {
    if r < 0x20 || 0x7F <= r < 0xA0 {
      ControlAtEnd(u, r);
    } else {
      SpacesAre(r);
      hide IsSpace;
      SpaceInFront(u, r);
      SameKeptSameClean(EncodeRune(r) + u, u);
      if Valid(u) {
        SpaceBehind(u, r);
        SameKeptSameClean(u + EncodeRune(r), u);
      }
      hide *;
    }
  }

  lemma ControlAtEnd(u: string, r: Rune)
    requires r < 0x20 || 0x7F <= r < 0xA0
    ensures Clean(EncodeRune(r) + u) == Clean(u)
    ensures Valid(u) ==> Clean(u + EncodeRune(r)) == Clean(u)
  {
    hide EncodeRune;
    hide Clean;
    assert "" + EncodeRune(r) + u == EncodeRune(r) + u && "" + u == u;
    assert u + EncodeRune(r) + "" == u + EncodeRune(r) && u + "" == u;
    ControlIsDropped("", r, u);
    if Valid(u) {
      ControlIsDropped(u, r, "");
    }
  }

  lemma SpaceInFront(u: string, r: Rune)
    requires IsSpace(r) && !IsControl(r)
    ensures Kept(EncodeRune(r) + u) == Kept(u)
  {
    assert r != '"' as int && r != '<' as int && r != '>' as int;
    DropBreakingConcat(EncodeRune(r), u);
    DropBreakingRune(r);
    RunesOfEncodedRune(r, DropBreaking(u));
    SpaceIsTrimmed(r, Runes(DropBreaking(u)));
    hide *;
    KeptIs(EncodeRune(r) + u);
    KeptIs(u);
  }

  lemma KeptIs(name: string)
    ensures Kept(name) == Trim(DropControls(Runes(DropBreaking(name))))
  {
    hide Trim;
    hide DropControls;
    hide Runes;
    hide DropBreaking;
  }

  lemma SpaceBehind(u: string, r: Rune)
    requires Valid(u) && IsSpace(r) && !IsControl(r)
    ensures Kept(u + EncodeRune(r)) == Kept(u)
  {
    assert r != '"' as int && r != '<' as int && r != '>' as int;
    hide IsSpace;
    hide IsControl;
    hide Runes;
    hide Valid;
    hide DropBreaking;
    hide EncodeRune;
    hide Trim;
    hide DropControls;
    hide Encode;
    EmptyName();
    RunesAround(u, r, "");
    assert u + EncodeRune(r) + "" == u + EncodeRune(r);
    var a := Runes(DropBreaking(u));
    assert a + [r] + Runes(DropBreaking("")) == a + [r];
    SpaceIsTrimmed(r, a);
  }

  lemma EmptyName()
    ensures Valid("") && Runes(DropBreaking("")) == []
  {
  }

  lemma SpaceIsTrimmed(r: Rune, rs: seq<Rune>)
    requires IsSpace(r) && !IsControl(r)
    ensures Trim(DropControls([r] + rs)) == Trim(DropControls(rs))
    ensures Trim(DropControls(rs + [r])) == Trim(DropControls(rs))
  {
    DropControlsConcat([r], rs);
    DropControlsConcat(rs, [r]);
    DropControlsOne(r);
    TrimOfSpace(r, DropControls(rs));
    hide Trim;
    hide DropControls;
  }

  lemma DropControlsOne(r: Rune)
    ensures DropControls([r]) == if IsControl(r) then [] else [r]
  {
    assert [r][1..] == [];
  }

  /** A name nothing has to be removed from: valid, no rune that is dropped, no outer white space. */
  predicate Untouched(name: string) {
    && Valid(name)
    && (forall r | r in Runes(name) ::
          r >= 0x20 && !(0x7F <= r < 0xA0) && r != '"' as int && r != '<' as int && r != '>' as int)
    && (name != "" ==> Runes(name)[0] !in SPACES && Runes(name)[|Runes(name)| - 1] !in SPACES)
  }

  /**
    Such a name of at most 200 bytes is its own clean name; a longer one is cut to the
    longest run of whole runes that fits, without the white space the cut left at its end.
   */
  lemma UntouchedNameIsKept(name: string)
    requires Untouched(name)
    ensures |name| <= 200 ==> Clean(name) == name
    ensures |name| > 200 ==>
              var rs := Runes(name);
              exists k: nat :: k < |rs| && |Encode(rs[..k])| <= 200 < |Encode(rs[..k + 1])|
                               && Clean(name) == Encode(TrimRight(rs[..k]))
  {
    var rs := Runes(name);
    UntouchedIsKept(name);
    RepairIsIdentityIffValid(name);
    if |name| > 200 {
      FitStops(rs, 200);
      assert Fit(rs, 200) == rs[..|Fit(rs, 200)|];
      FirstIsNoSpace(name);
      TrimStartKeeps(rs, Fit(rs, 200));
    }
    hide *;
  }

  lemma FirstIsNoSpace(name: string)
    requires Untouched(name) && name != ""
    ensures Runes(name) != [] && !IsSpace(Runes(name)[0])
  {
    SpacesAre(Runes(name)[0]);
  }

  lemma TrimStartKeeps(rs: seq<Rune>, p: seq<Rune>)
    requires rs != [] && !IsSpace(rs[0]) && p <= rs
    ensures Trim(p) == TrimRight(p)
  {
    assert p != [] ==> p[0] == rs[0];
  }

  lemma UntouchedIsKept(name: string)
    requires Untouched(name)
    ensures Kept(name) == Runes(name)
  {
    var rs := Runes(name);
    RepairIsIdentityIffValid(name);
    NoBreakingBytes(rs);
    DropBreakingKeeps(name);
    DropControlsKeeps(rs);
    hide Valid;
    if rs != [] {
      SpacesAre(rs[0]);
      SpacesAre(rs[|rs| - 1]);
    }
    TrimKeeps(rs);
  }

  lemma {:induction false} FitStops(rs: seq<Rune>, budget: nat)
    requires |Encode(rs)| > budget
    ensures var k := |Fit(rs, budget)|;
            k < |rs| && |Encode(rs[..k])| <= budget < |Encode(rs[..k + 1])|
  {
    var p := Fit(rs, budget);
    var k := |p|;
    assert p == rs[..k];
    assert rs[..|rs|] == rs;
    if |Encode(rs[..k + 1])| <= budget {
      FitIsLongest(rs, budget, k + 1);
    }
  }

  /** A malformed byte counts as U+FFFD. */
  lemma MalformedByteIsReplaced(u: string, v: string)
    requires Valid(u) && v != "" && Width(v) == 0
    requires forall i | 0 <= i < |u + v| :: !Breaking((u + v)[i])
    ensures Clean(u + v) == Clean(u + [0xEF as char, 0xBF as char, 0xBD as char] + v[1..])
  {
    var bad := [0xEF as char, 0xBF as char, 0xBD as char];
    assert bad == EncodeRune(0xFFFD);
    NothingBreaking(u, v);
    DropBreakingKeeps(bad);
    hide *;
    var w := u + bad + v[1..];
    ConcatAssoc(u, bad, v[1..]);
    DropBreakingConcat(u + bad, v[1..]);
    DropBreakingConcat(u, bad);
    ValidConcat(u, v);
    ValidConcat(u, bad + v[1..]);
    MalformedByte(v);
    RunesOfEncodedRune(0xFFFD, v[1..]);
    SameRunesSameClean(u + v, w);
  }

  lemma NothingBreaking(u: string, v: string)
    requires v != "" && forall i | 0 <= i < |u + v| :: !Breaking((u + v)[i])
    ensures DropBreaking(u + v) == u + v && DropBreaking(u) == u && DropBreaking(v[1..]) == v[1..]
  {
    hide Breaking;
    assert forall i | 0 <= i < |v[1..]| :: v[1..][i] == (u + v)[|u| + 1 + i];
    assert forall i | 0 <= i < |u| :: u[i] == (u + v)[i];
    DropBreakingKeeps(u + v);
    DropBreakingKeeps(u);
    DropBreakingKeeps(v[1..]);
  }

  lemma SameRunesSameClean(a: string, b: string)
    requires DropBreaking(a) == a && DropBreaking(b) == b && Runes(a) == Runes(b)
    ensures Clean(a) == Clean(b)
  {
    hide DropControls;
    hide Trim;
    hide Runes;
    SameKeptSameClean(a, b);
  }
}
