/**
 * The ranking and report of `reducer()` in scale_map.py:
 * `sorted(final_counts.items(), key=lambda item: item[1], reverse=True)`,
 * the slice `[:6]`, and the lines written to `final_output.txt`.
 *
 * Python's sort is stable, also with `reverse=True`: items with equal counts
 * stay in the order of `final_counts.items()`, which is the order in which the
 * values were first seen. No tie is broken by the value itself.
 */
module Ranking {
  import opened Wrappers
  import opened PyInt
  import opened PyStr
  import opened Counts
  import opened Seqs

  /** Counts never increase along `s`. */
  predicate SortedDesc(s: seq<(int, nat)>)
  {
    forall i, j :: 0 <= i < j < |s| ==> s[i].1 >= s[j].1
  }

  /** The items of `s` whose count is `c`, in the order of `s`. */
  function WithCount(s: seq<(int, nat)>, c: nat): seq<(int, nat)>
  {
    if s == [] then []
    else (if s[0].1 == c then [s[0]] else []) + WithCount(s[1..], c)
  }

  /**
   * `r` is what a stable sort by descending count makes of `s`: counts never
   * increase, and for every count the items holding it appear in `r` exactly
   * as, and in the order, they appear in `s`.
   */
  ghost predicate IsStableSortOf(r: seq<(int, nat)>, s: seq<(int, nat)>)
  {
    SortedDesc(r) && forall c :: WithCount(r, c) == WithCount(s, c)
  }

  lemma {:induction false} WithCountConcat(a: seq<(int, nat)>, b: seq<(int, nat)>, c: nat)
    ensures WithCount(a + b, c) == WithCount(a, c) + WithCount(b, c)
  {
    if a == [] {
      assert a + b == b;
    } else {
      WithCountConcat(a[1..], b, c);
      assert (a + b)[0] == a[0];
      assert (a + b)[1..] == a[1..] + b;
      var h := if a[0].1 == c then [a[0]] else [];
      assert WithCount(a + b, c) == h + (WithCount(a[1..], c) + WithCount(b, c));
      assert h + (WithCount(a[1..], c) + WithCount(b, c)) == (h + WithCount(a[1..], c)) + WithCount(b, c);
    }
  }

  lemma {:induction false} WithCountMembers(s: seq<(int, nat)>, c: nat)
    ensures forall x :: x in WithCount(s, c) ==> x in s && x.1 == c
  {
    if s != [] {
      WithCountMembers(s[1..], c);
    }
  }

  /** No item of `s` has count `c` exactly when none is kept. */
  lemma {:induction false} WithCountEmpty(s: seq<(int, nat)>, c: nat)
    requires forall k :: 0 <= k < |s| ==> s[k].1 != c
    ensures WithCount(s, c) == []
  {
    if s != [] {
      WithCountEmpty(s[1..], c);
    }
  }

  /**
   * Putting `x` at position `j` of a sorted `r`, after every count at least
   * `x`'s and before every smaller one, keeps `r` sorted and appends `x` to the
   * items of its count.
   */
  lemma InsertAt(r: seq<(int, nat)>, j: nat, x: (int, nat))
    requires SortedDesc(r) && j <= |r|
    requires forall k :: 0 <= k < j ==> r[k].1 >= x.1
    requires forall k :: j <= k < |r| ==> r[k].1 < x.1
    ensures SortedDesc(r[..j] + [x] + r[j..])
    ensures forall c :: WithCount(r[..j] + [x] + r[j..], c) == WithCount(r, c) + (if x.1 == c then [x] else [])
  {
    var n := r[..j] + [x] + r[j..];
    assert forall k :: 0 <= k < j ==> n[k] == r[k];
    assert n[j] == x;
    assert forall k :: j < k < |n| ==> n[k] == r[k - 1];
    forall c
      ensures WithCount(n, c) == WithCount(r, c) + (if x.1 == c then [x] else [])
    {
      InsertAtCount(r, j, x, c);
    }
  }

  lemma InsertAtCount(r: seq<(int, nat)>, j: nat, x: (int, nat), c: nat)
    requires j <= |r|
    requires forall k :: j <= k < |r| ==> r[k].1 < x.1
    ensures WithCount(r[..j] + [x] + r[j..], c) == WithCount(r, c) + (if x.1 == c then [x] else [])
  {
    var lo, hi := r[..j], r[j..];
    WithCountConcat(lo + [x], hi, c);
    WithCountConcat(lo, [x], c);
    WithCountConcat(lo, hi, c);
    assert lo + hi == r;
    assert [x][1..] == [];
    assert WithCount([x], c) == (if x.1 == c then [x] else []);
    if x.1 == c {
      WithCountEmpty(hi, c);
    }
  }

  /** One step of the insertion sort keeps it a stable sort of the items taken so far. */
  lemma InsertStep(r: seq<(int, nat)>, items: seq<(int, nat)>, i: nat, j: nat)
    requires i < |items| && j <= |r|
    requires SortedDesc(r) && multiset(r) == multiset(items[..i])
    requires forall c :: WithCount(r, c) == WithCount(items[..i], c)
    requires j == 0 || r[j - 1].1 >= items[i].1
    requires forall k :: j <= k < |r| ==> r[k].1 < items[i].1
    ensures var n := r[..j] + [items[i]] + r[j..];
            && SortedDesc(n)
            && multiset(n) == multiset(items[..i + 1])
            && forall c :: WithCount(n, c) == WithCount(items[..i + 1], c)
  {
    var x := items[i];
    InsertSorted(r, j, x);
    InsertMultiset(r, items, i, j);
    forall c
      ensures WithCount(r[..j] + [x] + r[j..], c) == WithCount(items[..i + 1], c)
    {
      InsertCount(r, items, i, j, c);
    }
  }

  lemma InsertSorted(r: seq<(int, nat)>, j: nat, x: (int, nat))
    requires SortedDesc(r) && j <= |r|
    requires j == 0 || r[j - 1].1 >= x.1
    requires forall k :: j <= k < |r| ==> r[k].1 < x.1
    ensures SortedDesc(r[..j] + [x] + r[j..])
  {
    assert forall k :: 0 <= k < j ==> r[k].1 >= x.1 by {
      forall k | 0 <= k < j
        ensures r[k].1 >= x.1
      {
        assert r[k].1 >= r[j - 1].1;
      }
    }
    InsertAt(r, j, x);
  }

  lemma InsertMultiset(r: seq<(int, nat)>, items: seq<(int, nat)>, i: nat, j: nat)
    requires i < |items| && j <= |r|
    requires multiset(r) == multiset(items[..i])
    ensures multiset(r[..j] + [items[i]] + r[j..]) == multiset(items[..i + 1])
  {
    assert items[..i + 1] == items[..i] + [items[i]];
    assert r == r[..j] + r[j..];
  }

  lemma InsertCount(r: seq<(int, nat)>, items: seq<(int, nat)>, i: nat, j: nat, c: nat)
    requires i < |items| && j <= |r|
    requires WithCount(r, c) == WithCount(items[..i], c)
    requires forall k :: j <= k < |r| ==> r[k].1 < items[i].1
    ensures WithCount(r[..j] + [items[i]] + r[j..], c) == WithCount(items[..i + 1], c)
  {
    var x := items[i];
    InsertAtCount(r, j, x, c);
    assert items[..i + 1] == items[..i] + [x];
    AppendCount(items[..i], x, c);
  }

  lemma AppendCount(s: seq<(int, nat)>, x: (int, nat), c: nat)
    ensures WithCount(s + [x], c) == WithCount(s, c) + (if x.1 == c then [x] else [])
  {
    WithCountConcat(s, [x], c);
    assert [x][1..] == [];
  }

  /**
   * `sorted(items, key=count, reverse=True)` written as the stable insertion
   * sort it is equivalent to: each item goes after every item already placed
   * whose count is at least its own.
   */
  method SortByCount(items: seq<(int, nat)>) returns (r: seq<(int, nat)>)
    ensures SortedDesc(r)
    ensures multiset(r) == multiset(items)
    ensures forall c :: WithCount(r, c) == WithCount(items, c)
  {
    r := [];
    var i := 0;
    while i < |items|
      invariant 0 <= i <= |items|
      invariant SortedDesc(r)
      invariant multiset(r) == multiset(items[..i])
      invariant forall c :: WithCount(r, c) == WithCount(items[..i], c)
    {
      var x := items[i];
      var j := |r|;
      while j > 0 && r[j - 1].1 < x.1
        invariant 0 <= j <= |r|
        invariant forall k :: j <= k < |r| ==> r[k].1 < x.1
      {
        j := j - 1;
      }
      InsertStep(r, items, i, j);
      r := r[..j] + [x] + r[j..];
      i := i + 1;
    }
    assert items[..i] == items;
  }

  /**
   * The stable sort is unique: two sequences sorted by descending count that
   * keep every count's items alike are equal. So the contract of `SortByCount`
   * pins down Python's `sorted` result exactly.
   */
  lemma {:induction false} StableSortUnique(a: seq<(int, nat)>, b: seq<(int, nat)>)
    requires SortedDesc(a) && SortedDesc(b)
    requires forall c :: WithCount(a, c) == WithCount(b, c)
    ensures a == b
  {
    WithCountHead(a);
    WithCountHead(b);
    if a != [] && b != [] {
      HeadsEqual(a, b);
      TailsAlike(a, b);
      StableSortUnique(a[1..], b[1..]);
      assert a == [a[0]] + a[1..] && b == [b[0]] + b[1..];
    }
  }

  /** The first item of `s` is the first one kept for its count. */
  lemma WithCountHead(s: seq<(int, nat)>)
    ensures s != [] ==> WithCount(s, s[0].1) != [] && WithCount(s, s[0].1)[0] == s[0]
  {
  }

  /** Two stable sorts of the same items start alike. */
  lemma HeadsEqual(a: seq<(int, nat)>, b: seq<(int, nat)>)
    requires a != [] && b != []
    requires SortedDesc(a) && SortedDesc(b)
    requires forall c :: WithCount(a, c) == WithCount(b, c)
    ensures a[0] == b[0]
  {
    var ca, cb := a[0].1, b[0].1;
    WithCountHead(a);
    WithCountHead(b);
    WithCountMembers(a, cb);
    WithCountMembers(b, ca);
    assert a[0] in WithCount(b, ca);
    assert b[0] in WithCount(a, cb);
    assert ca <= cb by {
      var p :| 0 <= p < |b| && b[p] == a[0];
      assert p == 0 || b[0].1 >= b[p].1;
    }
    assert cb <= ca by {
      var q :| 0 <= q < |a| && a[q] == b[0];
      assert q == 0 || a[0].1 >= a[q].1;
    }
  }

  /** Removing the same first item from both keeps every count's items alike. */
  lemma TailsAlike(a: seq<(int, nat)>, b: seq<(int, nat)>)
    requires a != [] && b != [] && a[0] == b[0]
    requires forall c :: WithCount(a, c) == WithCount(b, c)
    ensures forall c :: WithCount(a[1..], c) == WithCount(b[1..], c)
  {
    forall c
      ensures WithCount(a[1..], c) == WithCount(b[1..], c)
    {
      var h := if a[0].1 == c then [a[0]] else [];
      assert WithCount(a, c) == h + WithCount(a[1..], c);
      assert WithCount(b, c) == h + WithCount(b[1..], c);
      assert (h + WithCount(a[1..], c))[|h|..] == WithCount(a[1..], c);
      assert (h + WithCount(b[1..], c))[|h|..] == WithCount(b[1..], c);
    }
  }

  /** The item at position `i` of `s` is the one after the items of its count that come before it. */
  lemma WithCountAt(s: seq<(int, nat)>, i: nat)
    requires i < |s|
    ensures |WithCount(s[..i], s[i].1)| < |WithCount(s, s[i].1)|
    ensures WithCount(s, s[i].1)[|WithCount(s[..i], s[i].1)|] == s[i]
  {
    var c := s[i].1;
    assert s == s[..i] + [s[i]] + s[i + 1..];
    WithCountConcat(s[..i] + [s[i]], s[i + 1..], c);
    AppendCount(s[..i], s[i], c);
  }

  /** Taking a longer prefix keeps at least as many items of each count, one more when it passes one of them. */
  lemma WithCountGrows(s: seq<(int, nat)>, i: nat, j: nat, c: nat)
    requires i <= j <= |s|
    ensures |WithCount(s[..i], c)| <= |WithCount(s[..j], c)|
    ensures i < j && s[i].1 == c ==> |WithCount(s[..i], c)| < |WithCount(s[..j], c)|
  {
    assert s[..j] == s[..i] + s[i..j];
    WithCountConcat(s[..i], s[i..j], c);
    if i < j {
      assert s[i..j] == [s[i]] + s[i + 1..j];
      WithCountConcat([s[i]], s[i + 1..j], c);
      var one: seq<(int, nat)> := [s[i]];
      assert one[1..] == [];
    }
  }

  /** Every item kept for count `c` comes from a position of `s` after exactly as many kept items. */
  lemma {:induction false} WithCountSource(s: seq<(int, nat)>, c: nat, a: nat)
    requires a < |WithCount(s, c)|
    ensures exists p :: 0 <= p < |s| && s[p] == WithCount(s, c)[a] && |WithCount(s[..p], c)| == a
  {
    var w := WithCount(s, c);
    assert s != [];
    var h := if s[0].1 == c then [s[0]] else [];
    assert w == h + WithCount(s[1..], c);
    if a < |h| {
      assert s[..0] == [];
      assert s[0] == w[a];
      assert |WithCount(s[..0], c)| == a;
    } else {
      WithCountSource(s[1..], c, a - |h|);
      var p :| 0 <= p < |s[1..]| && s[1..][p] == WithCount(s[1..], c)[a - |h|] && |WithCount(s[1..][..p], c)| == a - |h|;
      assert s[..p + 1] == [s[0]] + s[1..][..p];
      WithCountConcat([s[0]], s[1..][..p], c);
      var one: seq<(int, nat)> := [s[0]];
      assert one[1..] == [];
      assert s[p + 1] == w[a];
      assert |WithCount(s[..p + 1], c)| == a;
    }
  }

  /**
   * Ties keep their order: two entries of a stable sort with equal counts
   * come in the order in which they stand in the sorted items, which for
   * `final_counts.items()` is the order the values were first seen.
   */
  lemma StableTies(r: seq<(int, nat)>, s: seq<(int, nat)>, i: nat, j: nat)
    requires IsStableSortOf(r, s)
    requires i < j < |r| && r[i].1 == r[j].1
    ensures exists p, q :: 0 <= p < q < |s| && s[p] == r[i] && s[q] == r[j]
  {
    var c := r[i].1;
    WithCountAt(r, i);
    WithCountAt(r, j);
    WithCountGrows(r, i, j, c);
    var a, b := |WithCount(r[..i], c)|, |WithCount(r[..j], c)|;
    assert WithCount(r, c) == WithCount(s, c);
    WithCountSource(s, c, a);
    WithCountSource(s, c, b);
    var p :| 0 <= p < |s| && s[p] == WithCount(s, c)[a] && |WithCount(s[..p], c)| == a;
    var q :| 0 <= q < |s| && s[q] == WithCount(s, c)[b] && |WithCount(s[..q], c)| == b;
    if q <= p {
      WithCountGrows(s, q, p, c);
    }
  }

  /** How many entries the report lists. */
  const TopCount: nat := 6

  /** `sorted_counts[:6]`. */
  function Top(r: seq<(int, nat)>): (t: seq<(int, nat)>)
    ensures |t| == if |r| < TopCount then |r| else TopCount
    ensures t == r[..|t|]
  {
    if |r| <= TopCount then r else r[..TopCount]
  }

  /**
   * The report of a stable sort of the items of `final_counts`: it lists
   * min(6, number of distinct values) entries, each a value with its total, in
   * non-increasing order of count, and no value left out has a count greater
   * than the last one listed.
   */
  lemma TopShape(t: Tally, r: seq<(int, nat)>)
    requires Valid(t)
    requires SortedDesc(r) && multiset(r) == multiset(Items(t))
    ensures |Top(r)| == if |t.count| < TopCount then |t.count| else TopCount
    ensures SortedDesc(Top(r))
    ensures forall i :: 0 <= i < |Top(r)| ==> Top(r)[i].0 in t.count && t.count[Top(r)[i].0] == Top(r)[i].1
    ensures forall k :: k in t.count && (forall i :: 0 <= i < |Top(r)| ==> Top(r)[i].0 != k) ==>
              t.count[k] <= Top(r)[|Top(r)| - 1].1
  {
    DistinctKeysCount(t);
    assert |r| == |multiset(r)| == |multiset(Items(t))| == |Items(t)|;
    TopEntries(t, r);
    TopOmitted(t, r);
  }

  /** Each listed entry is a value of the dictionary with its count. */
  lemma TopEntries(t: Tally, r: seq<(int, nat)>)
    requires Valid(t)
    requires multiset(r) == multiset(Items(t))
    ensures forall i :: 0 <= i < |Top(r)| ==> Top(r)[i].0 in t.count && t.count[Top(r)[i].0] == Top(r)[i].1
  {
    var top := Top(r);
    ItemsExact(t);
    forall i | 0 <= i < |top|
      ensures top[i].0 in t.count && t.count[top[i].0] == top[i].1
    {
      assert top[i] == r[i];
      assert r[i] in multiset(Items(t));
    }
  }

  /** A value left out of the sorted list's first six has a count no greater than the last one listed. */
  lemma TopOmitted(t: Tally, r: seq<(int, nat)>)
    requires Valid(t)
    requires SortedDesc(r) && multiset(r) == multiset(Items(t))
    ensures forall k :: k in t.count && (forall i :: 0 <= i < |Top(r)| ==> Top(r)[i].0 != k) ==>
              t.count[k] <= Top(r)[|Top(r)| - 1].1
  {
    var top := Top(r);
    forall k | k in t.count && (forall i :: 0 <= i < |top| ==> top[i].0 != k)
      ensures t.count[k] <= top[|top| - 1].1
    {
      var p := OmittedAt(t, r, k);
      assert r[|top| - 1].1 >= r[p].1;
    }
  }

  /** The item of a value left out of the first six sits after them in `r`. */
  lemma OmittedAt(t: Tally, r: seq<(int, nat)>, k: int) returns (p: nat)
    requires Valid(t) && multiset(r) == multiset(Items(t))
    requires k in t.count && forall i :: 0 <= i < |Top(r)| ==> Top(r)[i].0 != k
    ensures |Top(r)| <= p < |r| && r[p] == (k, t.count[k])
  {
    ItemsExact(t);
    var x := (k, t.count[k]);
    assert x in multiset(Items(t));
    p := IndexOfMember(r, x);
    assert forall i :: 0 <= i < |Top(r)| ==> r[i] == Top(r)[i];
  }

  /**
   * A value left out of the first six of a stable sort with the count of a
   * listed entry comes after that entry's value in the dictionary's key order.
   */
  lemma TopCut(t: Tally, r: seq<(int, nat)>, i: nat, k: int) returns (p: nat, q: nat)
    requires Valid(t) && multiset(r) == multiset(Items(t)) && IsStableSortOf(r, Items(t))
    requires k in t.count && forall j :: 0 <= j < |Top(r)| ==> Top(r)[j].0 != k
    requires i < |Top(r)| && Top(r)[i].1 == t.count[k]
    ensures p < q < |t.keys| && t.keys[p] == Top(r)[i].0 && t.keys[q] == k
  {
    var j := OmittedAt(t, r, k);
    assert Top(r)[i] == r[i];
    StableTies(r, Items(t), i, j);
    p, q :| 0 <= p < q < |Items(t)| && Items(t)[p] == r[i] && Items(t)[q] == r[j];
  }

  /** The first line of `final_output.txt`. */
  const Header: string := "Top 6 elements with the highest frequencies:"

  /**
   * `f"Number: {num}, Frequency: {count}"`. It holds no line break, so each
   * entry takes exactly one line of the report; `RenderLineRoundTrip` reads
   * it back.
   */
  function RenderLine(e: (int, nat)): (r: string)
    ensures '\n' !in r
  {
    var a, b := EncodeInt(e.0), EncodeInt(e.1);
    assert forall k :: 0 <= k < |a| ==> a[k] != '\n';
    assert forall k :: 0 <= k < |b| ==> b[k] != '\n';
    "Number: " + a + ", Frequency: " + b
  }

  /** The lines of `final_output.txt` (each is written followed by a newline): the header, then one line per entry. */
  method RenderReport(top: seq<(int, nat)>) returns (lines: seq<string>)
    ensures lines == [Header] + RenderAll(top)
  {
    lines := [Header];
    var i := 0;
    while i < |top|
      invariant 0 <= i <= |top|
      invariant lines == [Header] + RenderAll(top[..i])
    {
      var line := RenderLine(top[i]);
      TakeOneMore(top, i);
      assert RenderAll(top[..i + 1]) == RenderAll(top[..i]) + [line];
      AppendAssoc([Header], RenderAll(top[..i]), [line]);
      lines := lines + [line];
      i := i + 1;
    }
    TakeAll(top);
  }

  /** The rendered lines of the entries, in order. */
  function RenderAll(top: seq<(int, nat)>): (ls: seq<string>)
    ensures |ls| == |top|
  {
    if top == [] then [] else RenderAll(top[..|top| - 1]) + [RenderLine(top[|top| - 1])]
  }

  /** Line `k` of `RenderAll(top)` renders entry `k`. */
  lemma {:induction false} RenderAllAt(top: seq<(int, nat)>)
    ensures forall k :: 0 <= k < |top| ==> RenderAll(top)[k] == RenderLine(top[k])
  {
    if top != [] {
      var front := top[..|top| - 1];
      RenderAllAt(front);
      SnocAt(RenderAll(front), RenderLine(top[|top| - 1]));
      PrefixAt(top);
    }
  }

  /** Reads a report line back: the value and the count it shows, if it has the shape `RenderLine` writes. */
  function ParseReportLine(line: string): Option<(int, nat)>
  {
    match SplitReportLine(line)
    case None => None
    case Some((num, cnt)) =>
      match (ParseInt(num), ParseInt(cnt))
      case (Some(n), Some(c)) => if c >= 0 then Some((n, c)) else None
      case _ => None
  }

  /** A report line shows exactly its entry: reading it back gives the value and the count. */
  lemma RenderLineRoundTrip(e: (int, nat))
    ensures ParseReportLine(RenderLine(e)) == Some(e)
  {
    EncodeIntNoComma(e.0);
    SplitRendered(EncodeInt(e.0), EncodeInt(e.1));
    KeyRoundTrip(e.0);
    KeyRoundTrip(e.1);
  }

  /** The text of the value and of the count in a line `Number: <num>, Frequency: <cnt>` where `num` has no comma. */
  function SplitReportLine(line: string): Option<(string, string)>
  {
    var pre := "Number: ";
    var sep := ", Frequency: ";
    if |line| < |pre| || line[..|pre|] != pre then None
    else
      var rest := line[|pre|..];
      match IndexOf(rest, ',')
      case None => None
      case Some(i) =>
        var tail := rest[i..];
        if |tail| < |sep| || tail[..|sep|] != sep then None
        else Some((rest[..i], tail[|sep|..]))
  }

  /** Splitting a rendered line gives back the two texts it was made of. */
  lemma SplitRendered(num: string, cnt: string)
    requires ',' !in num
    ensures SplitReportLine("Number: " + num + ", Frequency: " + cnt) == Some((num, cnt))
  {
    var sep := ", Frequency: ";
    var rest := num + (sep + cnt);
    var line := "Number: " + num + ", Frequency: " + cnt;
    assert line == "Number: " + rest;
    assert line[..8] == "Number: " && line[8..] == rest;
    IndexAfter(num, sep + cnt, ',');
    assert rest[..|num|] == num;
    assert rest[|num|..] == sep + cnt;
    assert (sep + cnt)[..|sep|] == sep && (sep + cnt)[|sep|..] == cnt;
  }
}
