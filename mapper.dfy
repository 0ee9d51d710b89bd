/**
 * `mapper(file_path)` of scale_map.py: count how often each integer occurs as
 * a line of one input file. A file is given by its lines (`None` when it does
 * not exist); reading it is not part of the model.
 */
module Mapper {
  import opened Wrappers
  import opened PyStr
  import opened PyInt
  import opened Counts
  import opened Seqs

  /** `int(line.strip())`: the integer a line holds, or `None` where Python raises `ValueError`. */
  function ParseLine(line: string): Option<int>
  {
    ParseInt(Strip(line))
  }

  /** How many lines hold the integer `v`. */
  function Occurrences(lines: seq<string>, v: int): nat
  {
    if lines == [] then 0
    else Occurrences(lines[..|lines| - 1], v) + (if ParseLine(lines[|lines| - 1]) == Some(v) then 1 else 0)
  }

  /** The integers of the lines that hold one, in line order. */
  function ParsedValues(lines: seq<string>): seq<int>
  {
    if lines == [] then []
    else
      ParsedValues(lines[..|lines| - 1])
        + match ParseLine(lines[|lines| - 1]) case Some(v) => [v] case None => []
  }

  /** The dictionary the counting loop of `mapper` has built after reading `lines`. */
  function TallyLines(lines: seq<string>): Tally
  {
    if lines == [] then Empty
    else
      var t := TallyLines(lines[..|lines| - 1]);
      match ParseLine(lines[|lines| - 1])
      case Some(v) => Add(t, v, 1)
      case None => t
  }

  /** What `mapper` returns: the counts of the file, or `{}` when the file is not found. */
  function MapperSpec(file: Option<seq<string>>): Tally
  {
    match file
    case None => Empty
    case Some(lines) => TallyLines(lines)
  }

  /** The dictionary invariant holds, and the count of every integer is the number of lines that hold it. */
  lemma {:induction false} TallyLinesCounts(lines: seq<string>)
    ensures Valid(TallyLines(lines))
    ensures forall v :: Get(TallyLines(lines), v) == Occurrences(lines, v)
  {
    if lines != [] {
      TallyLinesCounts(lines[..|lines| - 1]);
    }
  }

  /** A key is present only with a count of at least 1. */
  lemma {:induction false} TallyLinesPositive(lines: seq<string>)
    ensures forall v :: v in TallyLines(lines).count ==> TallyLines(lines).count[v] >= 1
  {
    if lines != [] {
      var p := lines[..|lines| - 1];
      TallyLinesPositive(p);
      var t := TallyLines(p);
      match ParseLine(lines[|lines| - 1])
      case Some(v) =>
        var r := Add(t, v, 1);
        assert TallyLines(lines) == r;
        forall k | k in r.count
          ensures r.count[k] >= 1
        {
          assert Get(r, k) == r.count[k];
          if k != v {
            assert Get(t, k) == t.count[k];
          }
        }
      case None =>
        assert TallyLines(lines) == t;
    }
  }

  /** Keys are ordered by the line where each integer first occurs. */
  lemma {:induction false} TallyLinesOrder(lines: seq<string>)
    ensures TallyLines(lines).keys == Dedup(ParsedValues(lines))
  {
    if lines != [] {
      var p := lines[..|lines| - 1];
      TallyLinesOrder(p);
      TallyLinesCounts(p);
      var t := TallyLines(p);
      match ParseLine(lines[|lines| - 1])
      case Some(v) =>
        assert ParsedValues(lines) == ParsedValues(p) + [v];
        assert TallyLines(lines) == Add(t, v, 1);
        AddKeepsFirstSeen(t, v, 1, ParsedValues(p));
      case None =>
        assert ParsedValues(lines) == ParsedValues(p);
        assert TallyLines(lines) == t;
    }
  }

  /** The counts add up to the number of lines that hold an integer. */
  lemma {:induction false} TallyLinesTotal(lines: seq<string>)
    ensures Valid(TallyLines(lines))
    ensures Total(TallyLines(lines)) == |ParsedValues(lines)|
  {
    TallyLinesCounts(lines);
    if lines != [] {
      var p := lines[..|lines| - 1];
      TallyLinesTotal(p);
      var t := TallyLines(p);
      match ParseLine(lines[|lines| - 1])
      case Some(v) =>
        assert ParsedValues(lines) == ParsedValues(p) + [v];
        assert TallyLines(lines) == Add(t, v, 1);
        TotalAdd(t, v, 1);
      case None =>
        assert ParsedValues(lines) == ParsedValues(p);
        assert TallyLines(lines) == t;
    }
  }

  /** A line that does not hold an integer is in no count. */
  lemma {:induction false} NonIntegerLinesCountNowhere(lines: seq<string>, i: nat, v: int)
    requires i < |lines| && ParseLine(lines[i]).None?
    ensures Occurrences(lines, v) == Occurrences(lines[..i] + lines[i + 1..], v)
  {
    DropAt(lines, i);
    if i < |lines| - 1 {
      NonIntegerLinesCountNowhere(lines[..|lines| - 1], i, v);
      OccurrencesSnoc(lines[..i] + lines[i + 1..], v);
    }
  }

  lemma OccurrencesSnoc(lines: seq<string>, v: int)
    requires lines != []
    ensures Occurrences(lines, v) == Occurrences(lines[..|lines| - 1], v) + (if ParseLine(lines[|lines| - 1]) == Some(v) then 1 else 0)
  {
  }

  /** `mapper(file_path)`: one pass over the lines, adding 1 to the count of each integer line. */
  method Mapper(file: Option<seq<string>>) returns (counts: Tally)
    ensures counts == MapperSpec(file)
    ensures Valid(counts)
    ensures file.None? ==> counts == Empty
    ensures file.Some? ==> forall v :: Get(counts, v) == Occurrences(file.value, v)
    ensures file.Some? ==> Total(counts) == |ParsedValues(file.value)|
    ensures forall v :: v in counts.count ==> counts.count[v] >= 1
  {
    counts := Empty;
    if file.None? {
      return;
    }
    var lines := file.value;
    var i := 0;
    while i < |lines|
      invariant 0 <= i <= |lines|
      invariant counts == TallyLines(lines[..i])
    {
      assert lines[..i + 1][..i] == lines[..i];
      var num := ParseLine(lines[i]);
      if num.Some? {
        counts := Add(counts, num.value, 1);
      }
      i := i + 1;
    }
    assert lines[..i] == lines;
    TallyLinesCounts(lines);
    TallyLinesPositive(lines);
    TallyLinesTotal(lines);
  }
}
