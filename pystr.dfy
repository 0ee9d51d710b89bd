/**
 * The parts of Python's `str` that scale_map.py relies on: `strip()` with and
 * without an argument, `in` for a single character and the index of the first
 * occurrence of a character (used by `split(sep, 1)`).
 */
module PyStr {
  import opened Wrappers

  /** Python's `str.isspace()` for one character: the code points Unicode counts as white space or separators. */
  predicate IsSpace(c: char)
  {
    || ('\t' <= c <= '\r')
    || ('\U{001C}' <= c <= ' ')
    || c == '\U{0085}' || c == '\U{00A0}' || c == '\U{1680}'
    || ('\U{2000}' <= c <= '\U{200A}')
    || c == '\U{2028}' || c == '\U{2029}' || c == '\U{202F}' || c == '\U{205F}' || c == '\U{3000}'
  }

  /** The characters `strip()` with no argument removes. */
  const Whitespace: set<char> := set c: char | IsSpace(c)

  /** Drops every leading character that belongs to `cs`. */
  function LStrip(s: string, cs: set<char>): string
  {
    if s != [] && s[0] in cs then LStrip(s[1..], cs) else s
  }

  /** Drops every trailing character that belongs to `cs`. */
  function RStrip(s: string, cs: set<char>): string
  {
    if s != [] && s[|s| - 1] in cs then RStrip(s[..|s| - 1], cs) else s
  }

  /** Python's `s.strip(chars)` where `chars` holds exactly the characters of `cs`. */
  function StripSet(s: string, cs: set<char>): string
  {
    RStrip(LStrip(s, cs), cs)
  }

  /**
   * Python's `s.strip()`: no longer than `s`, and neither starting nor ending
   * with white space (`StripSetSpec` says it is a middle part of `s`).
   */
  function Strip(s: string): (r: string)
    ensures |r| <= |s|
    ensures r != [] ==> r[0] !in Whitespace && r[|r| - 1] !in Whitespace
  {
    StripSetSpec(s, Whitespace);
    StripSet(s, Whitespace)
  }

  lemma {:induction false} LStripSpec(s: string, cs: set<char>)
    ensures var r := LStrip(s, cs);
            |r| <= |s| && r == s[|s| - |r|..]
            && (forall k :: 0 <= k < |s| - |r| ==> s[k] in cs)
            && (r != [] ==> r[0] !in cs)
  {
    if s != [] && s[0] in cs {
      LStripSpec(s[1..], cs);
      var r := LStrip(s[1..], cs);
      assert forall k :: 1 <= k < |s| - |r| ==> s[k] == s[1..][k - 1];
    }
  }

  lemma {:induction false} RStripSpec(s: string, cs: set<char>)
    ensures var r := RStrip(s, cs);
            |r| <= |s| && r == s[..|r|]
            && (forall k :: |r| <= k < |s| ==> s[k] in cs)
            && (r != [] ==> r[|r| - 1] !in cs)
  {
    if s != [] && s[|s| - 1] in cs {
      RStripSpec(s[..|s| - 1], cs);
      var r := RStrip(s[..|s| - 1], cs);
      assert forall k :: |r| <= k < |s| - 1 ==> s[k] == s[..|s| - 1][k];
    }
  }

  /**
   * What `strip` leaves: a middle part of `s` whose two ends are not in `cs`,
   * everything cut away on either side being in `cs`.
   */
  lemma StripSetSpec(s: string, cs: set<char>)
    ensures var r := StripSet(s, cs);
            var i := |s| - |LStrip(s, cs)|;
            0 <= i && i + |r| <= |s| && r == s[i..i + |r|]
            && (forall k :: 0 <= k < i ==> s[k] in cs)
            && (forall k :: i + |r| <= k < |s| ==> s[k] in cs)
            && (r != [] ==> r[0] !in cs && r[|r| - 1] !in cs)
  {
    var l := LStrip(s, cs);
    LStripSpec(s, cs);
    RStripSpec(l, cs);
    var r := RStrip(l, cs);
    var i := |s| - |l|;
    assert r == s[i..i + |r|];
    assert forall k :: i + |r| <= k < |s| ==> s[k] == l[k - i];
  }

  /** Stripping a string whose two ends are already outside `cs` leaves it as it is. */
  lemma StripSetKeeps(s: string, cs: set<char>)
    requires s == [] || (s[0] !in cs && s[|s| - 1] !in cs)
    ensures StripSet(s, cs) == s
  {
  }

  /** Stripping twice is stripping once. */
  lemma StripSetIdempotent(s: string, cs: set<char>)
    ensures StripSet(StripSet(s, cs), cs) == StripSet(s, cs)
  {
    StripSetSpec(s, cs);
    StripSetKeeps(StripSet(s, cs), cs);
  }

  /** Index of the first `c` in `s`, as Python's `s.index(c)`; `None` when `c not in s`. */
  function IndexOf(s: string, c: char): (r: Option<nat>)
    ensures r.None? <==> c !in s
    ensures r.Some? ==> r.value < |s| && s[r.value] == c && c !in s[..r.value]
  {
    if s == [] then None
    else if s[0] == c then Some(0)
    else
      match IndexOf(s[1..], c)
      case None => None
      case Some(i) =>
        assert s[..i + 1] == [s[0]] + s[1..][..i];
        Some(i + 1)
  }

  /** The first `c` of `a + b` is at `|a|` when `a` has none and `b` starts with one. */
  lemma IndexAfter(a: string, b: string, c: char)
    requires c !in a && b != [] && b[0] == c
    ensures IndexOf(a + b, c) == Some(|a|)
  {
    var s := a + b;
    assert s[|a|] == c;
    assert forall k :: 0 <= k < |a| ==> s[k] == a[k];
    assert forall k :: |a| < k <= |s| ==> s[..k][|a|] == c;
  }
}
