/**
 * Python's `int(text)` in base 10 and `str(n)` for integers, the two directions
 * of the decimal text form that scale_map.py uses for input lines, for the keys
 * of the intermediate JSON artifacts and for the report.
 *
 * Accepted by `ParseInt` (the subset of `int()` modelled): surrounding
 * whitespace, then an optional `+` or `-`, then ASCII digits where a single
 * `_` may stand between two digits; leading zeros are allowed.
 */
module PyInt {
  import opened Wrappers
  import opened PyStr

  predicate IsDigit(c: char)
  {
    '0' <= c <= '9'
  }

  /** Digits with single underscores between them: `007`, `1_000`, but not `_1`, `1_`, `1__0` or ``. */
  predicate IsDigitRun(s: string)
  {
    if |s| == 0 then false
    else if |s| == 1 then IsDigit(s[0])
    else
      && IsDigit(s[|s| - 1])
      && (IsDigitRun(s[..|s| - 1]) || (s[|s| - 2] == '_' && IsDigitRun(s[..|s| - 2])))
  }

  /** The number a run of digits denotes, underscores ignored. */
  function RunValue(s: string): nat
  {
    if s == [] then 0
    else
      var c := s[|s| - 1];
      if IsDigit(c) then RunValue(s[..|s| - 1]) * 10 + (c as int - '0' as int)
      else RunValue(s[..|s| - 1])
  }

  /** The characters of a text `int()` converts: an optional sign, then digits and underscores, ending in a digit. */
  predicate NumeralShape(t: string)
  {
    && t != [] && IsDigit(t[|t| - 1])
    && (IsDigit(t[0]) || t[0] == '-' || t[0] == '+')
    && forall k :: 0 < k < |t| ==> IsDigit(t[k]) || t[k] == '_'
  }

  /**
   * A run of digits as `int()` reads it: a digit at each end, only digits and
   * underscores between, and every underscore between two digits.
   */
  predicate RunShape(u: string)
  {
    && u != [] && IsDigit(u[0]) && IsDigit(u[|u| - 1])
    && (forall k :: 0 <= k < |u| ==> IsDigit(u[k]) || u[k] == '_')
    && (forall k :: 0 < k < |u| - 1 && u[k] == '_' ==> IsDigit(u[k - 1]) && IsDigit(u[k + 1]))
  }

  /** Has a sign, `+` or `-`, in front. */
  predicate Signed(t: string)
  {
    t != [] && (t[0] == '-' || t[0] == '+')
  }

  /** The texts `int()` converts, once stripped: an optional sign, then a run of digits. */
  predicate Numeral(t: string)
  {
    if Signed(t) then RunShape(t[1..]) else RunShape(t)
  }

  /** The digits of `u`, in order, with every other character left out. */
  function DigitsOf(u: string): (d: string)
    ensures forall k :: 0 <= k < |d| ==> IsDigit(d[k])
  {
    if u == [] then []
    else DigitsOf(u[..|u| - 1]) + (if IsDigit(u[|u| - 1]) then [u[|u| - 1]] else [])
  }

  /** The canonical digits of a run: underscores and leading zeros dropped, and `0` when nothing is left. */
  function CanonDigits(u: string): string
  {
    var m := LStrip(DigitsOf(u), {'0'});
    if m == [] then "0" else m
  }

  /**
   * The canonical text of a numeral: a `+` dropped, a `-` kept only when some
   * digit is not zero, then its canonical digits.
   */
  function Canon(t: string): string
  {
    if Signed(t) then
      var c := CanonDigits(t[1..]);
      if t[0] == '-' && c != "0" then "-" + c else c
    else CanonDigits(t)
  }

  /** A non-empty text of ASCII digits only. */
  predicate AllDigits(t: string)
  {
    t != [] && forall k :: 0 <= k < |t| ==> IsDigit(t[k])
  }

  /**
   * Python's `int(s)` on the subset described above; `None` where Python raises
   * `ValueError`. What converts has, once stripped, the shape of a numeral; a
   * negative result needs a `-`; and a text of ASCII digits alone always
   * converts. `ParseIntMeaning` says exactly what converts and to which value.
   */
  function ParseInt(s: string): (r: Option<int>)
    ensures r.Some? ==> NumeralShape(Strip(s))
    ensures r.Some? && r.value < 0 ==> Strip(s)[0] == '-'
    ensures AllDigits(Strip(s)) ==> r.Some?
  {
    var t := Strip(s);
    if Signed(t) then
      if IsDigitRun(t[1..]) then
        DigitRunChars(t[1..]);
        assert forall k :: 0 < k < |t| ==> t[k] == t[1..][k - 1];
        Some(SignedValue(t))
      else None
    else
      AllDigitsRun(t);
      if IsDigitRun(t) then
        DigitRunChars(t);
        Some(RunValue(t))
      else None
  }

  /**
   * A text converts exactly when, once stripped, it is a `Numeral`, and then
   * to the integer whose decimal text is the numeral's canonical form: `+7`,
   * `007` and `0_7` all give 7, and `-0` gives 0. `EncodeInt` is one to one
   * (`EncodeIntInjective`), so this fixes the value.
   */
  lemma ParseIntMeaning(s: string)
    ensures ParseInt(s).Some? <==> Numeral(Strip(s))
    ensures ParseInt(s).Some? ==> EncodeInt(ParseInt(s).value) == Canon(Strip(s))
  {
    var t := Strip(s);
    if Signed(t) {
      RunShapeIff(t[1..]);
      if IsDigitRun(t[1..]) {
        SignedNumeral(t);
      }
    } else {
      RunShapeIff(t);
      if IsDigitRun(t) {
        RunCanon(t);
      }
    }
  }

  /** The integer a sign and a run of digits stand for. */
  function SignedValue(t: string): int
    requires Signed(t)
  {
    var n := RunValue(t[1..]) as int;
    if t[0] == '-' then -n else n
  }

  /** A numeral whose canonical text is that of `v` converts to `v`. */
  lemma ParseIntValue(s: string, v: int)
    requires Numeral(Strip(s)) && Canon(Strip(s)) == EncodeInt(v)
    ensures ParseInt(s) == Some(v)
  {
    ParseIntMeaning(s);
    EncodeIntInjective(ParseInt(s).value, v);
  }

  /** `z` zeros. */
  function Zeros(z: nat): (r: string)
    ensures |r| == z && forall k :: 0 <= k < z ==> r[k] == '0'
  {
    if z == 0 then [] else ['0'] + Zeros(z - 1)
  }

  /**
   * Signs and leading zeros: `int()` reads an optional `+` or `-`, then `z`
   * zeros, then the decimal digits of `n`, as `n` or `-n`; so `+7` and `007`
   * give 7, and `-0` gives 0.
   */
  lemma PaddedNumeral(sign: string, z: nat, n: nat)
    requires sign == "" || sign == "+" || sign == "-"
    ensures ParseInt(sign + Zeros(z) + NatDigits(n)) == Some(if sign == "-" then -(n as int) else n as int)
  {
    var u := Zeros(z) + NatDigits(n);
    var t := sign + u;
    assert t == sign + Zeros(z) + NatDigits(n);
    PaddedDigits(z, n);
    SignedDigitsRead(sign, u);
    PaddedCanon(z, n);
    SignCanon(sign, u, n);
    ParseIntValue(t, if sign == "-" then -(n as int) else n as int);
  }

  /** A sign in front of digits whose canonical form is the decimal text of `n` gives the text of `n` or `-n`. */
  lemma SignCanon(sign: string, u: string, n: nat)
    requires sign == "" || sign == "+" || sign == "-"
    requires AllDigits(u) && CanonDigits(u) == NatDigits(n)
    ensures Canon(sign + u) == EncodeInt(if sign == "-" then -(n as int) else n as int)
  {
    var t := sign + u;
    NatDigitsLead(n);
    if sign == "" {
      assert t == u && IsDigit(u[0]);
    } else {
      assert t[0] == sign[0] && t[1..] == u;
    }
  }

  /** Zeros followed by the decimal digits of a number are ASCII digits only. */
  lemma PaddedDigits(z: nat, n: nat)
    ensures AllDigits(Zeros(z) + NatDigits(n))
  {
    var u := Zeros(z) + NatDigits(n);
    assert forall k :: 0 <= k < |u| ==> IsDigit(u[k]);
  }

  /** An optional sign before ASCII digits is left alone by `strip()` and forms a numeral. */
  lemma SignedDigitsRead(sign: string, u: string)
    requires sign == "" || sign == "+" || sign == "-"
    requires AllDigits(u)
    ensures Strip(sign + u) == sign + u && Numeral(sign + u)
  {
    var t := sign + u;
    DigitNotSpace(u[|u| - 1]);
    assert t[|t| - 1] == u[|u| - 1];
    if sign == "" {
      assert t == u;
      DigitNotSpace(u[0]);
    } else {
      SignNotSpace();
      assert t[1..] == u;
    }
    StripSetKeeps(t, Whitespace);
    AllDigitsRun(u);
    RunShapeIff(u);
  }

  /** The canonical digits of zeros followed by the decimal digits of `n` are the decimal digits of `n`. */
  lemma PaddedCanon(z: nat, n: nat)
    ensures CanonDigits(Zeros(z) + NatDigits(n)) == NatDigits(n)
  {
    var d := NatDigits(n);
    var u := Zeros(z) + d;
    PaddedDigits(z, n);
    DigitsOfDigits(u);
    LStripZeros(z, d);
    if n == 0 {
      assert d == ['0'] && d[1..] == [];
      assert LStrip(d, {'0'}) == [];
    } else {
      assert d[0] != '0';
      assert LStrip(d, {'0'}) == d;
    }
  }

  /** Zeros in front do not survive `strip('0')`. */
  lemma {:induction false} LStripZeros(z: nat, w: string)
    ensures LStrip(Zeros(z) + w, {'0'}) == LStrip(w, {'0'})
  {
    if z > 0 {
      LStripZeros(z - 1, w);
      var s := Zeros(z) + w;
      assert s == ['0'] + (Zeros(z - 1) + w);
      assert s[0] in {'0'} && s[1..] == Zeros(z - 1) + w;
    } else {
      assert Zeros(z) + w == w;
    }
  }

  /** `int("1_0")` is 10: an underscore between digits is dropped. */
  lemma UnderscoreExample()
    ensures ParseInt("1_0") == Some(10)
  {
    UnderscoreText("1_0");
    ParseIntValue("1_0", 10);
  }

  /** `1_0` is left alone by `strip()`, is a numeral, and has `10` as canonical form. */
  lemma UnderscoreText(t: string)
    requires t == "1_0"
    ensures Strip(t) == t && Numeral(t) && Canon(t) == EncodeInt(10)
  {
    assert Strip(t) == t by {
      StripSetKeeps(t, Whitespace);
    }
    assert Canon(t) == "10" by {
      assert t[..2] == "1_" && t[..2][..1] == "1";
      DigitsOfDigits("1");
      assert DigitsOf(t) == "10";
    }
    assert EncodeInt(10) == "10" by {
      assert NatDigits(1) == "1";
    }
  }

  /** `int("1__0")` raises `ValueError`: two underscores in a row. */
  lemma DoubleUnderscoreExample()
    ensures ParseInt("1__0") == None
  {
    var t := "1__0";
    StripSetKeeps(t, Whitespace);
    assert t[1] == '_' && !IsDigit(t[2]);
    ParseIntMeaning(t);
  }

  /** A text of digits alone is its own digits. */
  lemma {:induction false} DigitsOfDigits(u: string)
    requires forall k :: 0 <= k < |u| ==> IsDigit(u[k])
    ensures DigitsOf(u) == u
  {
    if u != [] {
      DigitsOfDigits(u[..|u| - 1]);
    }
  }

  /** The value of a sign followed by a digit run has the numeral's canonical text. */
  lemma SignedNumeral(t: string)
    requires Signed(t) && IsDigitRun(t[1..])
    ensures EncodeInt(SignedValue(t)) == Canon(t)
  {
    RunCanon(t[1..]);
    NatDigitsLead(RunValue(t[1..]));
  }

  /** A digit run starts and ends with a digit and holds only digits and underscores. */
  lemma {:induction false} DigitRunChars(s: string)
    requires IsDigitRun(s)
    ensures s != [] && IsDigit(s[0]) && IsDigit(s[|s| - 1])
    ensures forall k :: 0 <= k < |s| ==> IsDigit(s[k]) || s[k] == '_'
  {
    if |s| > 1 {
      var p := if IsDigitRun(s[..|s| - 1]) then s[..|s| - 1] else s[..|s| - 2];
      DigitRunChars(p);
      assert forall k :: 0 <= k < |p| ==> s[k] == p[k];
    }
  }

  /** The recursive grammar of a digit run and its description character by character agree. */
  lemma {:induction false} RunShapeIff(u: string)
    ensures IsDigitRun(u) <==> RunShape(u)
  {
    if |u| > 1 {
      var p1, p2 := u[..|u| - 1], u[..|u| - 2];
      RunShapeIff(p1);
      if |u| > 2 {
        RunShapeIff(p2);
      }
      assert forall k :: 0 <= k < |p1| ==> u[k] == p1[k];
      assert forall k :: 0 <= k < |p2| ==> u[k] == p2[k];
      if RunShape(u) {
        if u[|u| - 2] == '_' {
          assert |u| > 2 && IsDigit(u[|u| - 3]);
          assert RunShape(p2);
        } else {
          assert RunShape(p1);
        }
      }
    }
  }

  /** A zero in front does not change the value of a run. */
  lemma {:induction false} LeadZero(w: string)
    ensures RunValue(['0'] + w) == RunValue(w)
  {
    if w != [] {
      LeadZero(w[..|w| - 1]);
      assert (['0'] + w)[..|w|] == ['0'] + w[..|w| - 1];
    }
  }

  /** Leading zeros do not change the value of a run. */
  lemma {:induction false} StripZerosValue(w: string)
    ensures RunValue(LStrip(w, {'0'})) == RunValue(w)
  {
    if w != [] && w[0] == '0' {
      StripZerosValue(w[1..]);
      LeadZero(w[1..]);
      assert w == ['0'] + w[1..];
    }
  }

  /** The value of a run is the value of its digits alone. */
  lemma {:induction false} DigitsOfValue(u: string)
    ensures RunValue(DigitsOf(u)) == RunValue(u)
  {
    if u != [] {
      var p := u[..|u| - 1];
      DigitsOfValue(p);
      var d := DigitsOf(u);
      if IsDigit(u[|u| - 1]) {
        assert d[..|d| - 1] == DigitsOf(p);
      } else {
        assert d == DigitsOf(p);
      }
    }
  }

  /** Digits with a non-zero first digit denote a positive number. */
  lemma {:induction false} LeadingDigitPositive(m: string)
    requires m != [] && m[0] != '0'
    requires forall k :: 0 <= k < |m| ==> IsDigit(m[k])
    ensures RunValue(m) > 0
  {
    if |m| > 1 {
      LeadingDigitPositive(m[..|m| - 1]);
    }
  }

  /** Digits without a leading zero are the canonical digits of their value; no digits at all stand for 0. */
  lemma {:induction false} CanonValue(m: string)
    requires m == [] || m[0] != '0'
    requires forall k :: 0 <= k < |m| ==> IsDigit(m[k])
    ensures NatDigits(RunValue(m)) == if m == [] then "0" else m
  {
    if |m| > 1 {
      var p := m[..|m| - 1];
      var c := m[|m| - 1];
      var d := c as int - '0' as int;
      LeadingDigitPositive(p);
      CanonValue(p);
      var n := RunValue(m);
      assert n == RunValue(p) * 10 + d;
      assert n / 10 == RunValue(p) && n % 10 == d;
      assert DigitChar(d) == c;
      assert m == p + [c];
    } else if |m| == 1 {
      assert DigitChar(m[0] as int - '0' as int) == m[0];
    }
  }

  /** The canonical digits of a run are the decimal text of its value. */
  lemma RunCanon(u: string)
    ensures NatDigits(RunValue(u)) == CanonDigits(u)
  {
    var w := DigitsOf(u);
    var m := LStrip(w, {'0'});
    DigitsOfValue(u);
    StripZerosValue(w);
    LStripSpec(w, {'0'});
    assert forall k :: 0 <= k < |m| ==> m[k] == w[|w| - |m| + k];
    CanonValue(m);
  }

  /** The decimal text of a positive number does not start with `0`, so it is not `"0"`. */
  lemma NatDigitsLead(n: nat)
    ensures n > 0 ==> NatDigits(n) != "0"
  {
  }

  /** ASCII digits without underscores always form a digit run. */
  lemma {:induction false} AllDigitsRun(s: string)
    ensures AllDigits(s) ==> IsDigitRun(s)
  {
    if |s| > 1 {
      AllDigitsRun(s[..|s| - 1]);
    }
  }

  function DigitChar(d: nat): (c: char)
    requires d < 10
    ensures IsDigit(c) && c as int - '0' as int == d
  {
    ('0' as int + d) as char
  }

  /** The canonical decimal digits of `n`, no leading zero. */
  function NatDigits(n: nat): (s: string)
    ensures |s| > 0 && s[0] != '_'
    ensures forall k :: 0 <= k < |s| ==> IsDigit(s[k])
    ensures n > 0 ==> s[0] != '0'
  {
    if n < 10 then [DigitChar(n)] else NatDigits(n / 10) + [DigitChar(n % 10)]
  }

  /**
   * Canonical decimal text of a number whose sign is `neg`: a `-` exactly when
   * `neg`, then digits only, with no leading zero unless the number is 0.
   */
  predicate Canonical(r: string, neg: bool, zero: bool)
  {
    var d := if neg then 1 else 0;
    && d < |r|
    && (r[0] == '-' <==> neg)
    && (forall k :: d <= k < |r| ==> IsDigit(r[k]))
    && (!zero ==> r[d] != '0')
  }

  /**
   * Python's `str(v)`, which is also how `json.dump` writes an integer
   * dictionary key: canonical decimal text.
   */
  function EncodeInt(v: int): (r: string)
    ensures Canonical(r, v < 0, v == 0)
  {
    if v < 0 then "-" + NatDigits(-v) else NatDigits(v)
  }

  lemma {:induction false} NatDigitsValue(n: nat)
    ensures IsDigitRun(NatDigits(n))
    ensures RunValue(NatDigits(n)) == n
  {
    if n >= 10 {
      NatDigitsValue(n / 10);
      var s := NatDigits(n);
      assert s[..|s| - 1] == NatDigits(n / 10);
    }
  }

  lemma DigitNotSpace(c: char)
    requires IsDigit(c)
    ensures c !in Whitespace
  {
  }

  lemma SignNotSpace()
    ensures '-' !in Whitespace && '+' !in Whitespace
  {
  }

  /** `int(str(v)) == v`: the decimal text of an integer reads back as that integer. */
  lemma {:induction false} KeyRoundTrip(v: int)
    ensures ParseInt(EncodeInt(v)) == Some(v)
  {
    var e := EncodeInt(v);
    var m: nat := if v < 0 then -v else v;
    NatDigitsValue(m);
    var d := NatDigits(m);
    assert e[|e| - 1] == d[|d| - 1];
    DigitNotSpace(d[|d| - 1]);
    if v < 0 {
      assert e[0] == '-' && e[1..] == d;
      SignNotSpace();
    } else {
      DigitNotSpace(d[0]);
    }
    StripSetKeeps(e, Whitespace);
  }

  /** Distinct integers have distinct decimal texts, so JSON keys never collide. */
  lemma EncodeIntInjective(a: int, b: int)
    requires EncodeInt(a) == EncodeInt(b)
    ensures a == b
  {
    KeyRoundTrip(a);
    KeyRoundTrip(b);
  }

  /** The decimal text of an integer never holds a comma, so a report line can be split at its first comma. */
  lemma EncodeIntNoComma(v: int)
    ensures ',' !in EncodeInt(v)
  {
  }
}
