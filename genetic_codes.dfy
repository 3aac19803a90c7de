/** Binary codes as the genetic programs write and read them: Python's
    f"{n:0{width}b}" formatting, and int(s, 2) parsing with its white space,
    sign, prefix and underscores. */
module BinaryCodes {
  import opened Util

  function Pow2(k: nat): (r: nat)
    ensures r >= 1
  {
    if k == 0 then 1 else 2 * Pow2(k - 1)
  }

  predicate IsBinary(s: string)
  {
    forall i :: 0 <= i < |s| ==> s[i] == '0' || s[i] == '1'
  }

  function BitChar(b: nat): char
    requires b < 2
  {
    if b == 0 then '0' else '1'
  }

  /** The digits the "b" format writes for n: no leading zeros, "0" for zero. */
  function BinDigits(n: nat): string
  {
    if n < 2 then [BitChar(n)] else BinDigits(n / 2) + [BitChar(n % 2)]
  }

  function Zeros(k: nat): string
  {
    seq(k, _ => '0')
  }

  /** f"{n:0{width}b}": the binary digits of n, left-padded with zeros to at least width characters. */
  function PadBinary(n: nat, width: nat): string
  {
    var digits := BinDigits(n);
    if |digits| >= width then digits else Zeros(width - |digits|) + digits
  }

  /** The number a string of binary digits denotes, most significant digit first. */
  function Value(s: string): nat
    requires IsBinary(s)
  {
    if s == [] then 0 else 2 * Value(s[..|s| - 1]) + (if s[|s| - 1] == '1' then 1 else 0)
  }

  /** The characters int() skips around a number: tab, line feed, vertical
      tab, form feed, carriage return and space among ASCII, and the other
      characters Python counts as white space. */
  predicate IsSpace(c: char)
  {
    || ('\t' <= c <= '\r') || c == ' '
    || c == '\U{85}' || c == '\U{A0}' || c == '\U{1680}'
    || ('\U{2000}' <= c <= '\U{200A}') || c == '\U{2028}' || c == '\U{2029}'
    || c == '\U{202F}' || c == '\U{205F}' || c == '\U{3000}'
  }

  predicate AllSpace(w: string)
  {
    forall i :: 0 <= i < |w| ==> IsSpace(w[i])
  }

  /** The number of white-space characters s starts with. */
  function SpacesBefore(s: string): nat
  {
    if s != [] && IsSpace(s[0]) then 1 + SpacesBefore(s[1..]) else 0
  }

  /** The number of white-space characters s ends with. */
  function SpacesAfter(s: string): nat
  {
    if s != [] && IsSpace(s[|s| - 1]) then 1 + SpacesAfter(s[..|s| - 1]) else 0
  }

  /** SpacesBefore counts the longest run of white space s starts with. */
  lemma {:induction false} SpacesBeforeRun(s: string)
    ensures var k := SpacesBefore(s); k <= |s| && AllSpace(s[..k]) && (k < |s| ==> !IsSpace(s[k]))
  {
    if s != [] && IsSpace(s[0]) {
      SpacesBeforeRun(s[1..]);
      var k := SpacesBefore(s);
      assert s[..k] == [s[0]] + s[1..][..k - 1];
    }
  }

  /** SpacesAfter counts the longest run of white space s ends with. */
  lemma {:induction false} SpacesAfterRun(s: string)
    ensures var k := SpacesAfter(s); k <= |s| && AllSpace(s[|s| - k..]) && (k < |s| ==> !IsSpace(s[|s| - k - 1]))
  {
    if s != [] && IsSpace(s[|s| - 1]) {
      SpacesAfterRun(s[..|s| - 1]);
      var k := SpacesAfter(s);
      assert s[|s| - k..] == s[..|s| - 1][|s| - k..] + [s[|s| - 1]];
    }
  }

  lemma {:induction false} SpacesBeforeBound(s: string)
    ensures SpacesBefore(s) <= |s|
  {
    if s != [] && IsSpace(s[0]) {
      SpacesBeforeBound(s[1..]);
    }
  }

  lemma {:induction false} SpacesAfterBound(s: string)
    ensures SpacesAfter(s) <= |s|
  {
    if s != [] && IsSpace(s[|s| - 1]) {
      SpacesAfterBound(s[..|s| - 1]);
    }
  }

  /** s without the white space around it. */
  function Strip(s: string): string
  {
    SpacesBeforeBound(s);
    var t := s[SpacesBefore(s)..];
    SpacesAfterBound(t);
    t[..|t| - SpacesAfter(t)]
  }

  /** The sign a number starts with, if any. */
  function SignOf(t: string): string
  {
    if |t| > 0 && (t[0] == '+' || t[0] == '-') then t[..1] else []
  }

  /** The base prefix 0b or 0B, with the one underscore that may follow it. */
  function PrefixOf(u: string): string
  {
    if |u| >= 2 && u[0] == '0' && (u[1] == 'b' || u[1] == 'B') then
      if |u| >= 3 && u[2] == '_' then u[..3] else u[..2]
    else []
  }

  /** Binary digits with single underscores between them: a digit, then
      either the end, or (after at most one underscore) more of the same. */
  predicate Underscored(v: string)
    decreases |v|
  {
    && v != [] && (v[0] == '0' || v[0] == '1')
    && (|v| == 1 || Underscored(if v[1] == '_' then v[2..] else v[1..]))
  }

  /** The digits of v, its underscores dropped. */
  function DropUnderscores(v: string): (r: string)
    requires Underscored(v)
    ensures IsBinary(r)
    decreases |v|
  {
    if |v| == 1 then v else [v[0]] + DropUnderscores(if v[1] == '_' then v[2..] else v[1..])
  }

  /** The digits after the sign: the prefix is skipped, and what remains
      must be binary digits with single underscores between them. */
  function Unsigned(u: string): Option<nat>
  {
    var v := u[|PrefixOf(u)|..];
    if Underscored(v) then Some(Value(DropUnderscores(v))) else None
  }

  /** A stripped number: an optional sign, then the unsigned part. */
  function Signed(t: string): Option<int>
  {
    var sign := SignOf(t);
    match Unsigned(t[|sign|..])
    case None => None
    case Some(n) => Some(if sign == "-" then -(n as int) else n)
  }

  /** int(s, 2) on a str: the white space around the number is skipped; then
      an optional sign, an optional 0b or 0B prefix, and binary digits with
      single underscores between them. Anything else is a ValueError (None). */
  function IntBase2(s: string): Option<int>
  {
    Signed(Strip(s))
  }

  /** s spells a number int(s, 2) accepts: white space w1, a sign, a
      prefix, the digits v, white space w2. */
  predicate Spelled(s: string, w1: string, sign: string, prefix: string, v: string, w2: string)
  {
    && s == w1 + sign + prefix + v + w2
    && AllSpace(w1) && AllSpace(w2)
    && sign in {"", "+", "-"}
    && prefix in {"", "0b", "0B", "0b_", "0B_"}
    && Underscored(v)
  }

  /** The value a spelling denotes. */
  function Spelling(sign: string, v: string): int
    requires Underscored(v)
  {
    var n: int := Value(DropUnderscores(v));
    if sign == "-" then -n else n
  }

  lemma {:induction false} SpacesBeforeConcat(w: string, c: string)
    requires AllSpace(w) && c != [] && !IsSpace(c[0])
    ensures SpacesBefore(w + c) == |w|
  {
    if w != [] {
      assert (w + c)[1..] == w[1..] + c;
      SpacesBeforeConcat(w[1..], c);
    }
  }

  lemma {:induction false} SpacesAfterConcat(c: string, w: string)
    requires AllSpace(w) && c != [] && !IsSpace(c[|c| - 1])
    ensures SpacesAfter(c + w) == |w|
  {
    if w != [] {
      assert (c + w)[..|c + w| - 1] == c + w[..|w| - 1];
      SpacesAfterConcat(c, w[..|w| - 1]);
    }
  }

  /** Stripping leaves the number between the white space. */
  lemma StripSpelled(s: string, w1: string, core: string, w2: string)
    requires s == w1 + core + w2 && AllSpace(w1) && AllSpace(w2)
    requires core != [] && !IsSpace(core[0]) && !IsSpace(core[|core| - 1])
    ensures Strip(s) == core
  {
    assert s == w1 + (core + w2);
    SpacesBeforeConcat(w1, core + w2);
    var t := s[|w1|..];
    assert t == core + w2;
    SpacesAfterConcat(core, w2);
  }

  /** A sign is split off, and nothing else is taken for one. */
  lemma SignOfSplits(t: string)
    ensures SignOf(t) in {"", "+", "-"} && t == SignOf(t) + t[|SignOf(t)|..]
  {
    if |t| > 0 && t[0] == '+' {
      assert t[..1] == "+";
    } else if |t| > 0 && t[0] == '-' {
      assert t[..1] == "-";
    }
  }

  lemma SignOfSpelled(sign: string, rest: string)
    requires sign in {"", "+", "-"} && rest != [] && rest[0] != '+' && rest[0] != '-'
    ensures SignOf(sign + rest) == sign && (sign + rest)[|sign|..] == rest
  {
    if sign != [] {
      assert (sign + rest)[..1] == sign;
    }
  }

  /** A prefix is split off, and nothing else is taken for one. */
  lemma PrefixOfSplits(u: string)
    ensures PrefixOf(u) in {"", "0b", "0B", "0b_", "0B_"} && u == PrefixOf(u) + u[|PrefixOf(u)|..]
  {
    if |u| >= 2 && u[0] == '0' && (u[1] == 'b' || u[1] == 'B') {
      if |u| >= 3 && u[2] == '_' {
        assert u[..3] == [u[0], u[1], u[2]];
      } else {
        assert u[..2] == [u[0], u[1]];
      }
    }
  }

  lemma PrefixOfSpelled(prefix: string, v: string)
    requires prefix in {"", "0b", "0B", "0b_", "0B_"} && Underscored(v)
    ensures PrefixOf(prefix + v) == prefix && (prefix + v)[|prefix|..] == v
  {
    var u := prefix + v;
    if prefix == [] {
      assert u == v;
    } else if |prefix| == 2 {
      assert u[2] == v[0];
      assert u[..2] == prefix;
    } else {
      assert u[..3] == prefix;
    }
  }

  /** A spelled number starts and ends with neither white space nor, after
      the sign, another sign. */
  lemma SpelledEnds(sign: string, prefix: string, v: string)
    requires sign in {"", "+", "-"} && prefix in {"", "0b", "0B", "0b_", "0B_"}
    requires v != [] && (v[0] == '0' || v[0] == '1') && (v[|v| - 1] == '0' || v[|v| - 1] == '1')
    ensures var rest := prefix + v; rest != [] && rest[0] != '+' && rest[0] != '-'
    ensures var core := sign + (prefix + v); !IsSpace(core[0]) && !IsSpace(core[|core| - 1])
  {
    var rest := prefix + v;
    assert rest[0] == '0' || rest[0] == '1' by {
      if prefix == [] { assert rest[0] == v[0]; } else { assert rest[0] == prefix[0]; }
    }
    var core := sign + rest;
    assert core[|core| - 1] == v[|v| - 1];
    if sign == [] { assert core[0] == rest[0]; } else { assert core[0] == sign[0]; }
  }

  lemma UnsignedSpelled(prefix: string, v: string)
    requires prefix in {"", "0b", "0B", "0b_", "0B_"} && Underscored(v)
    ensures Unsigned(prefix + v).Some? && Unsigned(prefix + v).value == Value(DropUnderscores(v))
  {
    PrefixOfSpelled(prefix, v);
  }

  lemma SignedSpelled(sign: string, prefix: string, v: string)
    requires sign in {"", "+", "-"} && prefix in {"", "0b", "0B", "0b_", "0B_"} && Underscored(v)
    ensures Signed(sign + (prefix + v)).Some? && Signed(sign + (prefix + v)).value == Spelling(sign, v)
  {
    UnderscoredLast(v);
    SpelledEnds(sign, prefix, v);
    SignOfSpelled(sign, prefix + v);
    UnsignedSpelled(prefix, v);
  }

  /** Every spelling is accepted, with its value. */
  lemma IntBase2OfSpelled(s: string, w1: string, sign: string, prefix: string, v: string, w2: string)
    requires Spelled(s, w1, sign, prefix, v, w2)
    ensures IntBase2(s).Some? && IntBase2(s).value == Spelling(sign, v)
  {
    var core := sign + (prefix + v);
    UnderscoredLast(v);
    SpelledEnds(sign, prefix, v);
    Regroup(w1, sign, prefix, v);
    assert s == w1 + core + w2;
    StripSpelled(s, w1, core, w2);
    SignedSpelled(sign, prefix, v);
  }

  lemma Regroup3(a: string, b: string, c: string)
    ensures a + (b + c) == a + b + c
  {
  }

  lemma Regroup(a: string, b: string, c: string, d: string)
    ensures a + (b + (c + d)) == a + b + c + d
  {
  }

  lemma LeadSplits(s: string) returns (w: string, t: string)
    ensures SpacesBefore(s) <= |s| && t == s[SpacesBefore(s)..]
    ensures s == w + t && AllSpace(w)
  {
    SpacesBeforeRun(s);
    w, t := s[..SpacesBefore(s)], s[SpacesBefore(s)..];
  }

  lemma TrailSplits(t: string) returns (core: string, w: string)
    ensures SpacesAfter(t) <= |t| && core == t[..|t| - SpacesAfter(t)]
    ensures t == core + w && AllSpace(w)
  {
    SpacesAfterRun(t);
    core, w := t[..|t| - SpacesAfter(t)], t[|t| - SpacesAfter(t)..];
  }

  /** Stripping removes white space only. */
  lemma StripSplits(s: string) returns (w1: string, w2: string)
    ensures s == w1 + Strip(s) + w2 && AllSpace(w1) && AllSpace(w2)
  {
    var t, core;
    w1, t := LeadSplits(s);
    core, w2 := TrailSplits(t);
    assert Strip(s) == core;
    Regroup3(w1, core, w2);
  }

  /** A stripped number int(s, 2) accepts splits into sign, prefix and digits. */
  lemma SignedSplits(core: string) returns (sign: string, prefix: string, v: string)
    requires Signed(core).Some?
    ensures core == sign + (prefix + v)
    ensures sign in {"", "+", "-"} && prefix in {"", "0b", "0B", "0b_", "0B_"} && Underscored(v)
  {
    SignOfSplits(core);
    sign := SignOf(core);
    var u := core[|sign|..];
    PrefixOfSplits(u);
    prefix := PrefixOf(u);
    v := u[|prefix|..];
    assert Unsigned(u).Some?;
  }

  /** Every text int(s, 2) accepts splits into a spelling. */
  lemma SpellingOf(s: string) returns (w1: string, sign: string, prefix: string, v: string, w2: string)
    requires IntBase2(s).Some?
    ensures Spelled(s, w1, sign, prefix, v, w2)
  {
    w1, w2 := StripSplits(s);
    sign, prefix, v := SignedSplits(Strip(s));
    Regroup(w1, sign, prefix, v);
  }

  /** What int(s, 2) accepts is exactly the spellings of numbers. */
  lemma IntBase2Accepts(s: string)
    ensures IntBase2(s).Some? <==> exists w1, sign, prefix, v, w2 :: Spelled(s, w1, sign, prefix, v, w2)
  {
    if IntBase2(s).Some? {
      var w1, sign, prefix, v, w2 := SpellingOf(s);
    }
    if exists w1, sign, prefix, v, w2 :: Spelled(s, w1, sign, prefix, v, w2) {
      var w1, sign, prefix, v, w2 :| Spelled(s, w1, sign, prefix, v, w2);
      IntBase2OfSpelled(s, w1, sign, prefix, v, w2);
    }
  }

  /** Binary digits are an underscored number without underscores. */
  lemma {:induction false} BinaryUnderscored(s: string)
    requires s != [] && IsBinary(s)
    ensures Underscored(s) && DropUnderscores(s) == s
  {
    if |s| > 1 {
      BinaryUnderscored(s[1..]);
      assert s == [s[0]] + s[1..];
    }
  }

  /** The last character of an underscored number is a digit. */
  lemma {:induction false} UnderscoredLast(v: string)
    requires Underscored(v)
    ensures v[|v| - 1] == '0' || v[|v| - 1] == '1'
    decreases |v|
  {
    if |v| > 1 {
      var rest := if v[1] == '_' then v[2..] else v[1..];
      UnderscoredLast(rest);
      assert rest[|rest| - 1] == v[|v| - 1];
    }
  }

  /** A non-empty string of binary digits reads as its value, below 2^len. */
  lemma IntBase2Binary(s: string)
    requires s != [] && IsBinary(s)
    ensures IntBase2(s).Some? && IntBase2(s).value == Value(s) && Value(s) < Pow2(|s|)
  {
    var e: string := [];
    assert s == e + e + e + s + e;
    BinaryUnderscored(s);
    IntBase2OfSpelled(s, e, e, e, s, e);
    ValueBound(s);
  }

  /** A minus sign in front of binary digits negates their value. */
  lemma IntBase2Negative(s: string)
    requires s != [] && IsBinary(s)
    ensures var r := IntBase2("-" + s); r.Some? && r.value == -(Value(s) as int)
  {
    var e: string := [];
    assert "-" + s == e + "-" + e + s + e;
    BinaryUnderscored(s);
    IntBase2OfSpelled("-" + s, e, "-", e, s, e);
    assert IntBase2("-" + s) == Some(Spelling("-", s));
  }

  /** Exactly w binary digits of n mod 2^w (the reference the padded format is compared with). */
  function Fixed(n: nat, w: nat): string
  {
    if w == 0 then [] else Fixed(n / 2, w - 1) + [BitChar(n % 2)]
  }

  lemma {:induction false} ValueBound(s: string)
    requires IsBinary(s)
    ensures Value(s) < Pow2(|s|)
  {
    if s != [] {
      ValueBound(s[..|s| - 1]);
    }
  }

  lemma {:induction false} FixedShape(n: nat, w: nat)
    requires n < Pow2(w)
    ensures |Fixed(n, w)| == w && IsBinary(Fixed(n, w))
    ensures Value(Fixed(n, w)) == n
  {
    if w > 0 {
      FixedShape(n / 2, w - 1);
      var f := Fixed(n, w);
      assert f[..w - 1] == Fixed(n / 2, w - 1);
    }
  }

  lemma {:induction false} FixedOfValue(s: string)
    requires IsBinary(s)
    ensures Fixed(Value(s), |s|) == s
  {
    if s != [] {
      var init := s[..|s| - 1];
      FixedOfValue(init);
      var v := Value(s);
      assert v / 2 == Value(init);
      assert BitChar(v % 2) == s[|s| - 1];
      assert s == init + [s[|s| - 1]];
    }
  }

  lemma {:induction false} FixedZero(w: nat)
    ensures Fixed(0, w) == Zeros(w)
  {
    if w > 0 {
      FixedZero(w - 1);
      assert Zeros(w) == Zeros(w - 1) + ['0'];
    }
  }

  /** Widening a fixed-width code only adds leading zeros. */
  lemma {:induction false} FixedWiden(n: nat, k: nat, w: nat)
    requires n < Pow2(k) && k <= w
    ensures Fixed(n, w) == Zeros(w - k) + Fixed(n, k)
  {
    if k == 0 {
      FixedZero(w);
      assert Fixed(n, k) == [];
      assert Zeros(w) + [] == Zeros(w);
    } else {
      FixedWiden(n / 2, k - 1, w - 1);
      assert Zeros(w - k) + Fixed(n, k) == (Zeros(w - k) + Fixed(n / 2, k - 1)) + [BitChar(n % 2)];
    }
  }

  lemma {:induction false} BinDigitsFixed(n: nat)
    ensures n < Pow2(|BinDigits(n)|)
    ensures BinDigits(n) == Fixed(n, |BinDigits(n)|)
  {
    if n >= 2 {
      BinDigitsFixed(n / 2);
    } else {
      assert Fixed(n, 1) == Fixed(0, 0) + [BitChar(n % 2)];
    }
  }

  lemma {:induction false} BinDigitsShort(n: nat, w: nat)
    requires w >= 1 && n < Pow2(w)
    ensures |BinDigits(n)| <= w
  {
    if n >= 2 {
      BinDigitsShort(n / 2, w - 1);
    }
  }

  /** For n < 2^w (w >= 1) the padded format is exactly the w-digit code of n. */
  lemma PadBinaryIsFixed(n: nat, w: nat)
    requires w >= 1 && n < Pow2(w)
    ensures PadBinary(n, w) == Fixed(n, w)
  {
    BinDigitsFixed(n);
    BinDigitsShort(n, w);
    var k := |BinDigits(n)|;
    FixedWiden(n, k, w);
    if k >= w {
      assert Zeros(0) + Fixed(n, k) == Fixed(n, k);
    }
  }

  /** Formatting an index below 2^w with width w gives w binary digits that read back as the index. */
  lemma PadBinaryRoundTrip(n: nat, w: nat)
    requires w >= 1 && n < Pow2(w)
    ensures |PadBinary(n, w)| == w && IsBinary(PadBinary(n, w))
    ensures Value(PadBinary(n, w)) == n
    ensures IntBase2(PadBinary(n, w)).Some? && IntBase2(PadBinary(n, w)).value == n
  {
    PadBinaryIsFixed(n, w);
    FixedShape(n, w);
    IntBase2Binary(PadBinary(n, w));
  }

  /** Reading a non-empty binary code and formatting it back at its own width gives the code. */
  lemma ValueRoundTrip(s: string)
    requires IsBinary(s) && |s| >= 1
    ensures PadBinary(Value(s), |s|) == s
  {
    ValueBound(s);
    PadBinaryIsFixed(Value(s), |s|);
    FixedOfValue(s);
  }
}
