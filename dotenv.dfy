/**
 * `load_dotenv(dotenv_path)` of scale_map.py: read `KEY=VALUE` lines and add
 * them to the environment, never replacing a variable that is already set.
 * The environment is a map from names to values; the file is given by its
 * lines (`None` when it does not exist).
 */
module DotEnv {
  import opened Wrappers
  import opened PyStr
  import opened Seqs

  /**
   * `val.strip().strip('"').strip("'")`: no longer than `val`, not starting or
   * ending with `'`, and `val` itself when its two ends are neither white
   * space nor a quote.
   */
  function StripQuotes(v: string): (r: string)
    ensures |r| <= |v|
    ensures r != [] ==> r[0] != '\'' && r[|r| - 1] != '\''
    ensures v != [] && v[0] !in Whitespace + {'"', '\''} && v[|v| - 1] !in Whitespace + {'"', '\''} ==> r == v
  {
    var d := StripSet(Strip(v), {'"'});
    StripSetSpec(Strip(v), {'"'});
    StripSetSpec(d, {'\''});
    CleanValueKept(v);
    StripSet(d, {'\''})
  }

  /** A value whose two ends are neither white space nor a quote goes through the strip chain unchanged. */
  lemma CleanValueKept(v: string)
    ensures v != [] && v[0] !in Whitespace + {'"', '\''} && v[|v| - 1] !in Whitespace + {'"', '\''} ==>
              StripSet(StripSet(Strip(v), {'"'}), {'\''}) == v
  {
    if v != [] && v[0] !in Whitespace + {'"', '\''} && v[|v| - 1] !in Whitespace + {'"', '\''} {
      StripSetKeeps(v, Whitespace);
      StripSetKeeps(v, {'"'});
      StripSetKeeps(v, {'\''});
    }
  }

  /**
   * The assignment a line of the file makes: `None` for a blank line, a line
   * starting with `#` and a line without `=`; otherwise the stripped text
   * before the first `=` and the unquoted text after it. The key may be empty.
   */
  function ParseEnvLine(raw: string): (r: Option<(string, string)>)
    ensures r.None? <==> Skipped(Strip(raw))
  {
    match SplitAssignment(Strip(raw))
    case None => None
    case Some((key, val)) => Some((Strip(key), StripQuotes(val)))
  }

  /** A stripped line the loop skips: blank, a comment, or without `=`. */
  predicate Skipped(line: string)
  {
    line == [] || line[0] == '#' || '=' !in line
  }

  /**
   * The raw text either side of the first `=` of a stripped line, or `None`
   * when the line is blank, a comment or has no `=`.
   */
  function SplitAssignment(line: string): Option<(string, string)>
  {
    if line == [] || line[0] == '#' then None
    else
      match IndexOf(line, '=')
      case None => None
      case Some(i) => Some((line[..i], line[i + 1..]))
  }

  /** A line that is not skipped is split at its first `=`. */
  lemma ParseEnvLineSpec(raw: string)
    ensures var line := Strip(raw);
            ParseEnvLine(raw).Some? ==>
              exists i :: 0 <= i < |line| && line[i] == '=' && '=' !in line[..i]
                && ParseEnvLine(raw).value == (Strip(line[..i]), StripQuotes(line[i + 1..]))
  {
    var line := Strip(raw);
    if ParseEnvLine(raw).Some? {
      var i := IndexOf(line, '=').value;
      assert line[i] == '=';
    }
  }

  /** A parsed key has no `=` in it and nothing left to strip, and a parsed value does not end or start with `'`. */
  lemma ParsedClean(raw: string)
    requires ParseEnvLine(raw).Some?
    ensures var (k, v) := ParseEnvLine(raw).value;
            && '=' !in k
            && Strip(k) == k
            && (v != [] ==> v[0] != '\'' && v[|v| - 1] != '\'')
  {
    var line := Strip(raw);
    var i := IndexOf(line, '=').value;
    var (k, v) := ParseEnvLine(raw).value;
    StripSetSpec(line[..i], Whitespace);
    assert forall c :: c in k ==> c in line[..i];
    StripSetIdempotent(line[..i], Whitespace);
    StripSetSpec(StripSet(Strip(line[i + 1..]), {'"'}), {'\''});
  }

  /** The line assigns the (non-empty) key `k`. */
  predicate Assigns(raw: string, k: string)
  {
    k != [] && ParseEnvLine(raw).Some? && ParseEnvLine(raw).value.0 == k
  }

  /** The value of the first line among `lines` that assigns `k`, if any. */
  function FirstValue(lines: seq<string>, k: string): Option<string>
  {
    if lines == [] then None
    else
      match FirstValue(lines[..|lines| - 1], k)
      case Some(v) => Some(v)
      case None =>
        var raw := lines[|lines| - 1];
        if Assigns(raw, k) then Some(ParseEnvLine(raw).value.1) else None
  }

  /** `FirstValue` finds the first assigning line: one of `lines`, with no earlier line assigning `k`. */
  lemma {:induction false} FirstValueSpec(lines: seq<string>, k: string)
    ensures FirstValue(lines, k).None? <==> forall i :: 0 <= i < |lines| ==> !Assigns(lines[i], k)
    ensures FirstValue(lines, k).Some? ==>
              exists i :: 0 <= i < |lines| && Assigns(lines[i], k)
                && ParseEnvLine(lines[i]).value.1 == FirstValue(lines, k).value
                && forall j :: 0 <= j < i ==> !Assigns(lines[j], k)
  {
    FirstValueNone(lines, k);
    if FirstValue(lines, k).Some? {
      var i := FirstIndex(lines, k);
    }
  }

  /** No line assigns `k` exactly when `FirstValue` finds nothing. */
  lemma {:induction false} FirstValueNone(lines: seq<string>, k: string)
    ensures FirstValue(lines, k).None? <==> forall i :: 0 <= i < |lines| ==> !Assigns(lines[i], k)
  {
    if lines != [] {
      var p, raw := lines[..|lines| - 1], lines[|lines| - 1];
      FirstValueNone(p, k);
      PrefixAt(lines);
      assert (forall i :: 0 <= i < |lines| ==> !Assigns(lines[i], k))
        <==> (forall i :: 0 <= i < |p| ==> !Assigns(p[i], k)) && !Assigns(raw, k);
    }
  }

  /** The index of the line `FirstValue` takes its value from. */
  lemma {:induction false} FirstIndex(lines: seq<string>, k: string) returns (i: nat)
    requires FirstValue(lines, k).Some?
    ensures i < |lines| && Assigns(lines[i], k)
    ensures ParseEnvLine(lines[i]).value.1 == FirstValue(lines, k).value
    ensures forall j :: 0 <= j < i ==> !Assigns(lines[j], k)
  {
    var p := lines[..|lines| - 1];
    PrefixAt(lines);
    if FirstValue(p, k).Some? {
      i := FirstIndex(p, k);
    } else {
      FirstValueNone(p, k);
      i := |lines| - 1;
    }
  }

  /** The environment after the loop has read `lines`, starting from `env`. */
  function LoadLines(env: map<string, string>, lines: seq<string>): map<string, string>
  {
    if lines == [] then env
    else
      var e := LoadLines(env, lines[..|lines| - 1]);
      match ParseEnvLine(lines[|lines| - 1])
      case None => e
      case Some((key, val)) => if key != [] && key !in e then e[key := val] else e
  }

  /**
   * A variable already set keeps its value; any other variable is set exactly
   * when some line assigns it, to the value of the first such line.
   */
  lemma {:induction false} LoadLinesSpec(env: map<string, string>, lines: seq<string>)
    ensures forall k :: k in env ==> k in LoadLines(env, lines) && LoadLines(env, lines)[k] == env[k]
    ensures forall k :: k !in env ==>
              (k in LoadLines(env, lines) <==> FirstValue(lines, k).Some?)
              && (k in LoadLines(env, lines) ==> LoadLines(env, lines)[k] == FirstValue(lines, k).value)
  {
    if lines != [] {
      var p := lines[..|lines| - 1];
      LoadLinesSpec(env, p);
    }
  }

  /**
   * `load_dotenv`: a missing file changes nothing; otherwise every line is
   * parsed and its key set when it is non-empty and not yet in the environment.
   */
  method LoadDotenv(env: map<string, string>, file: Option<seq<string>>) returns (r: map<string, string>)
    ensures file.None? ==> r == env
    ensures file.Some? ==> r == LoadLines(env, file.value)
    ensures forall k :: k in env ==> k in r && r[k] == env[k]
    ensures file.Some? ==> forall k :: k !in env ==>
              (k in r <==> FirstValue(file.value, k).Some?)
              && (k in r ==> r[k] == FirstValue(file.value, k).value)
  {
    r := env;
    if file.None? {
      return;
    }
    var lines := file.value;
    var i := 0;
    while i < |lines|
      invariant 0 <= i <= |lines|
      invariant r == LoadLines(env, lines[..i])
    {
      assert lines[..i + 1][..i] == lines[..i];
      match ParseEnvLine(lines[i]) {
        case None =>
        case Some((key, val)) =>
          if key != [] && key !in r {
            r := r[key := val];
          }
      }
      i := i + 1;
    }
    assert lines[..i] == lines;
    LoadLinesSpec(env, lines);
  }

  /**
   * `KEY=VALUE`, `KEY="VALUE"` and `KEY='VALUE'` all set `KEY` to `VALUE`
   * when neither has white space or quote characters at its ends, the key has
   * no `=` and does not start with `#`.
   */
  lemma AssignmentRoundTrip(k: string, v: string, q: string)
    requires q == "" || q == "\"" || q == "'"
    requires k != [] && k[0] != '#' && '=' !in k
    requires k[0] !in Whitespace && k[|k| - 1] !in Whitespace
    requires v != [] ==> v[0] !in Whitespace && v[|v| - 1] !in Whitespace
    requires v != [] ==> v[0] != '"' && v[|v| - 1] != '"' && v[0] != '\'' && v[|v| - 1] != '\''
    ensures ParseEnvLine(k + "=" + q + v + q) == Some((k, v))
  {
    var rest := q + v + q;
    var raw := k + ("=" + rest);
    assert k + "=" + q + v + q == raw;
    AssignmentSplits(k, v, q);
    StripSetKeeps(k, Whitespace);
    Unquote(v, q);
    ParseSplit(raw, k, rest);
  }

  /** The assignment line has nothing to strip and splits into the key and the quoted value. */
  lemma AssignmentSplits(k: string, v: string, q: string)
    requires q == "" || q == "\"" || q == "'"
    requires k != [] && k[0] != '#' && '=' !in k && k[0] !in Whitespace
    requires v != [] ==> v[|v| - 1] !in Whitespace
    ensures var raw := k + ("=" + (q + v + q));
            Strip(raw) == raw && SplitAssignment(raw) == Some((k, q + v + q))
  {
    var rest := q + v + q;
    var raw := k + ("=" + rest);
    RawKept(k, v, q);
    IndexAfter(k, "=" + rest, '=');
    SplitAtSign(k, rest);
    SplitAt(raw, |k|);
  }

  /** A line with nothing to strip yields the stripped key and the unquoted value of its split. */
  lemma ParseSplit(raw: string, key: string, val: string)
    requires Strip(raw) == raw && SplitAssignment(raw) == Some((key, val))
    ensures ParseEnvLine(raw) == Some((Strip(key), StripQuotes(val)))
  {
  }

  /** The pieces either side of the `=` joining `k` and `rest`. */
  lemma SplitAtSign(k: string, rest: string)
    requires k != []
    ensures var raw := k + ("=" + rest);
            raw[0] == k[0] && raw[..|k|] == k && raw[|k| + 1..] == rest
  {
  }

  /** A line that is not a comment splits at its first `=`. */
  lemma SplitAt(line: string, i: nat)
    requires line != [] && line[0] != '#'
    requires IndexOf(line, '=') == Some(i)
    ensures i < |line| && SplitAssignment(line) == Some((line[..i], line[i + 1..]))
  {
  }

  /** The assignment line has nothing to strip. */
  lemma RawKept(k: string, v: string, q: string)
    requires q == "" || q == "\"" || q == "'"
    requires k != [] && k[0] !in Whitespace
    requires v != [] ==> v[|v| - 1] !in Whitespace
    ensures Strip(k + ("=" + (q + v + q))) == k + ("=" + (q + v + q))
  {
    var raw := k + ("=" + (q + v + q));
    QuotesNotSpace();
    assert raw[0] == k[0];
    if q == "" && v == [] {
      assert raw[|raw| - 1] == '=';
    } else if q == "" {
      assert raw[|raw| - 1] == v[|v| - 1];
    } else {
      assert raw[|raw| - 1] == q[0];
    }
    StripSetKeeps(raw, Whitespace);
  }

  lemma QuotesNotSpace()
    ensures '=' !in Whitespace && '"' !in Whitespace && '\'' !in Whitespace
  {
  }

  /** `StripQuotes` takes off one kind of quotes put around a value with clean ends. */
  lemma Unquote(v: string, q: string)
    requires q == "" || q == "\"" || q == "'"
    requires v != [] ==> v[0] !in Whitespace && v[|v| - 1] !in Whitespace
    requires v != [] ==> v[0] != '"' && v[|v| - 1] != '"' && v[0] != '\'' && v[|v| - 1] != '\''
    ensures StripQuotes(q + v + q) == v
  {
    var rest := q + v + q;
    QuotesNotSpace();
    assert rest == [] || (rest[0] !in Whitespace && rest[|rest| - 1] !in Whitespace);
    StripSetKeeps(rest, Whitespace);
    if q == "\"" {
      QuotedStrip(v, '"');
      StripSetKeeps(v, {'\''});
    } else if q == "'" {
      StripSetKeeps(rest, {'"'});
      QuotedStrip(v, '\'');
    } else {
      assert rest == v;
      StripSetKeeps(v, {'"'});
      StripSetKeeps(v, {'\''});
    }
  }

  /** Stripping the quote `c` from `c + v + c` gives `v` back when `v` does not start or end with `c`. */
  lemma QuotedStrip(v: string, c: char)
    requires v != [] ==> v[0] != c && v[|v| - 1] != c
    ensures StripSet([c] + v + [c], {c}) == v
  {
    var s := [c] + v + [c];
    assert s[0] == c && s[1..] == v + [c];
    assert LStrip(s, {c}) == LStrip(v + [c], {c});
    if v == [] {
      assert v + [c] == [c];
      assert [c][1..] == [];
      assert LStrip([c], {c}) == [];
    } else {
      assert LStrip(v + [c], {c}) == v + [c];
      assert (v + [c])[..|v|] == v;
      assert RStrip(v + [c], {c}) == RStrip(v, {c});
      assert RStrip(v, {c}) == v;
    }
  }
}
