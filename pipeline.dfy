/**
 * The two phases of scale_map.py put together: `run_mappers()` writes one
 * artifact per input file, and `reducer()` loads the artifacts it finds,
 * adds them up, ranks the totals and writes the report. The glob results,
 * file contents and loaded artifacts are given as sequences.
 */
module Pipeline {
  import opened Wrappers
  import opened PyInt
  import opened Counts
  import opened Mapper
  import opened Artifact
  import opened Aggregate
  import opened Ranking
  import opened Seqs

  lemma MapperSpecValid(file: Option<seq<string>>)
    ensures Valid(MapperSpec(file))
    ensures forall v :: Get(MapperSpec(file), v) == FileCount(file, v)
  {
    if file.Some? {
      TallyLinesCounts(file.value);
    }
  }

  /** How often `v` occurs as a line of one input file; 0 for a missing file. */
  function FileCount(file: Option<seq<string>>, v: int): nat
  {
    match file
    case None => 0
    case Some(lines) => Occurrences(lines, v)
  }

  /** The sum over all input files of how often `v` occurs in them. */
  function FilesCount(files: seq<Option<seq<string>>>, v: int): nat
  {
    if files == [] then 0
    else FilesCount(files[..|files| - 1], v) + FileCount(files[|files| - 1], v)
  }

  /** The JSON object `json.dump` writes for the mapper result of one file. */
  function WrittenFor(file: Option<seq<string>>): seq<(string, nat)>
  {
    MapperSpecValid(file);
    EncodeTally(MapperSpec(file))
  }

  /** The artifacts `mapper_output_0.json`, `mapper_output_1.json`, ... as the reducer loads them back. */
  function WrittenArtifacts(files: seq<Option<seq<string>>>): (arts: seq<Artifact>)
    ensures |arts| == |files|
    ensures forall i :: 0 <= i < |files| ==> arts[i] == Loaded(WrittenFor(files[i]))
  {
    if files == [] then []
    else WrittenArtifacts(files[..|files| - 1]) + [Loaded(WrittenFor(files[|files| - 1]))]
  }

  /**
   * `run_mappers()`: the mapper runs over the files in order (`executor.map`
   * keeps the input order) and result `i` is written as artifact `i`. The
   * mapping and the writing are one pass here; the mappers share no state.
   */
  method RunMappers(files: seq<Option<seq<string>>>) returns (written: seq<seq<(string, nat)>>)
    ensures |written| == |files|
    ensures forall i :: 0 <= i < |files| ==> written[i] == WrittenFor(files[i])
    ensures forall i :: 0 <= i < |files| ==>
              DecodeEntries(written[i]).Some? && AddAll(Empty, DecodeEntries(written[i]).value) == MapperSpec(files[i])
  {
    written := [];
    for i := 0 to |files|
      invariant |written| == i
      invariant forall k :: 0 <= k < i ==> written[k] == WrittenFor(files[k])
    {
      var counts := Mapper.Mapper(files[i]);
      WrittenStep(counts, files[i]);
      written := written + [EncodeTally(counts)];
    }
    AllWrittenReload(files, written);
  }

  /** Every artifact of a run loads back into its file's mapper dictionary. */
  lemma AllWrittenReload(files: seq<Option<seq<string>>>, written: seq<seq<(string, nat)>>)
    requires |written| == |files|
    requires forall i :: 0 <= i < |files| ==> written[i] == WrittenFor(files[i])
    ensures forall i :: 0 <= i < |files| ==>
              DecodeEntries(written[i]).Some? && AddAll(Empty, DecodeEntries(written[i]).value) == MapperSpec(files[i])
  {
    forall i | 0 <= i < |files|
      ensures DecodeEntries(written[i]).Some? && AddAll(Empty, DecodeEntries(written[i]).value) == MapperSpec(files[i])
    {
      WrittenReloads(files[i]);
    }
  }

  lemma WrittenStep(t: Tally, file: Option<seq<string>>)
    requires t == MapperSpec(file)
    ensures Valid(t) && EncodeTally(t) == WrittenFor(file)
  {
    MapperSpecValid(file);
  }

  /** Loading an artifact back and adding up its members rebuilds the mapper dictionary it was written from. */
  lemma WrittenReloads(file: Option<seq<string>>)
    ensures DecodeEntries(WrittenFor(file)).Some?
    ensures AddAll(Empty, DecodeEntries(WrittenFor(file)).value) == MapperSpec(file)
  {
    MapperSpecValid(file);
    EncodedReloads(MapperSpec(file));
  }

  /** An artifact written by a mapper loads back with every key converting, and holds the file's counts. */
  lemma WrittenArtifactCount(file: Option<seq<string>>, v: int)
    ensures ArtifactOk(Loaded(WrittenFor(file)))
    ensures ArtifactCount(Loaded(WrittenFor(file)), v) == FileCount(file, v)
  {
    var t := MapperSpec(file);
    MapperSpecValid(file);
    EncodedReloads(t);
    DecodeEntriesSpec(EncodeTally(t));
    ItemsCount(t.keys, t.count, v);
  }

  lemma {:induction false} WrittenArtifactsTotal(files: seq<Option<seq<string>>>, v: int)
    ensures AllOk(WrittenArtifacts(files))
    ensures TotalFor(WrittenArtifacts(files), v) == FilesCount(files, v)
  {
    var arts := WrittenArtifacts(files);
    if files != [] {
      var p := files[..|files| - 1];
      WrittenArtifactsTotal(p, v);
      assert arts[..|arts| - 1] == WrittenArtifacts(p);
      WrittenArtifactCount(files[|files| - 1], v);
      forall i | 0 <= i < |files|
        ensures ArtifactOk(arts[i])
      {
        WrittenArtifactCount(files[i], v);
      }
    }
  }

  /**
   * The whole map phase read back in any order: when the reducer finds
   * exactly the artifacts the mappers wrote, in whatever order the glob lists
   * them, no key fails to convert and the total of every integer is the number
   * of lines holding it, summed over all input files.
   */
  lemma EndToEndTotals(files: seq<Option<seq<string>>>, arts: seq<Artifact>)
    requires multiset(arts) == multiset(WrittenArtifacts(files))
    ensures AddArtifacts(arts).Some?
    ensures forall v :: Get(AddArtifacts(arts).value, v) == FilesCount(files, v)
  {
    var w := WrittenArtifacts(files);
    WrittenArtifactsTotal(files, 0);
    AllOkPermutation(arts, w);
    AddArtifactsSpec(arts);
    forall v
      ensures Get(AddArtifacts(arts).value, v) == FilesCount(files, v)
    {
      WrittenArtifactsTotal(files, v);
      TotalForPermutation(arts, w, v);
    }
  }

  /** What `reducer()` leaves behind. */
  datatype Report =
    | NoArtifacts              // no `*.json` file was found: nothing is written
    | Crashed                  // `int(num)` raised `ValueError`, which is not caught
    | Written(lines: seq<string>)  // the lines of `final_output.txt`

  /**
   * What the report lists for the artifacts `arts`: the four parts below, so
   * the six entries of greatest total with ties at the cut settled in favour
   * of the values seen first.
   */
  ghost predicate ListsTop(arts: seq<Artifact>, top: seq<(int, nat)>)
  {
    && TopListed(arts, top)
    && TopOmittedBelow(arts, top)
    && TopTiesFirstSeen(arts, top)
    && TopCutFirstSeen(arts, top)
  }

  /**
   * At most six entries, as many as there are distinct values when fewer, in
   * order of decreasing total, each a value some artifact mentions with its total.
   */
  ghost predicate TopListed(arts: seq<Artifact>, top: seq<(int, nat)>)
  {
    var n := |Dedup(AllKeys(arts))|;
    && |top| == (if n < TopCount then n else TopCount)
    && SortedDesc(top)
    && (forall i :: 0 <= i < |top| ==> top[i].0 in AllKeys(arts) && top[i].1 == TotalFor(arts, top[i].0))
  }

  /** No value left out has a total above the last entry. */
  ghost predicate TopOmittedBelow(arts: seq<Artifact>, top: seq<(int, nat)>)
  {
    forall v :: v in AllKeys(arts) && (forall i :: 0 <= i < |top| ==> top[i].0 != v) ==>
      |top| > 0 && TotalFor(arts, v) <= top[|top| - 1].1
  }

  /** Entries with equal totals are in the order their values were first seen. */
  ghost predicate TopTiesFirstSeen(arts: seq<Artifact>, top: seq<(int, nat)>)
  {
    var keys := Dedup(AllKeys(arts));
    forall i, j :: 0 <= i < j < |top| && top[i].1 == top[j].1 ==>
      exists p, q :: 0 <= p < q < |keys| && keys[p] == top[i].0 && keys[q] == top[j].0
  }

  /** A value left out with the total of a listed entry was first seen after that entry's value. */
  ghost predicate TopCutFirstSeen(arts: seq<Artifact>, top: seq<(int, nat)>)
  {
    var keys := Dedup(AllKeys(arts));
    forall v, i ::
      (&& v in AllKeys(arts) && 0 <= i < |top| && top[i].1 == TotalFor(arts, v)
       && (forall k :: 0 <= k < |top| ==> top[k].0 != v)) ==>
      exists p, q :: 0 <= p < q < |keys| && keys[p] == top[i].0 && keys[q] == v
  }

  /**
   * `reducer()` over the artifacts the glob found, in glob order. `top` is
   * `sorted_counts[:6]`, the entries the report lists.
   */
  method Reducer(arts: seq<Artifact>) returns (out: Report, top: seq<(int, nat)>)
    ensures out.NoArtifacts? <==> arts == []
    ensures out.Crashed? <==> arts != [] && !AllOk(arts)
    ensures !out.Written? ==> top == []
    ensures out.Written? ==> ListsTop(arts, top)
    ensures out.Written? ==> |out.lines| == |top| + 1 && out.lines[0] == Header
    ensures out.Written? ==> out.lines == [Header] + RenderAll(top)
  {
    top := [];
    if arts == [] {
      out := NoArtifacts;
      return;
    }
    var agg := Aggregate.Aggregate(arts);
    if agg.None? {
      out := Crashed;
      return;
    }
    var t := agg.value;
    var items := Items(t);
    var ranked := SortByCount(items);
    top := Top(ranked);
    var lines := RenderReport(top);
    out := Written(lines);
    ReportSpec(arts, t, ranked);
  }

  /** The first six entries of a stable sort of the items of the totals `t` of `arts` are what the report lists. */
  lemma ReportSpec(arts: seq<Artifact>, t: Tally, ranked: seq<(int, nat)>)
    requires AddArtifacts(arts) == Some(t)
    requires Valid(t)
    requires SortedDesc(ranked) && multiset(ranked) == multiset(Items(t))
    requires forall c :: WithCount(ranked, c) == WithCount(Items(t), c)
    ensures ListsTop(arts, Top(ranked))
  {
    ReportEntries(arts, t, ranked);
    ReportOmitted(arts, t, ranked);
    ReportTies(arts, t, ranked);
    ReportCut(arts, t, ranked);
  }

  /** The length and contents of `Top(ranked)` for the totals `t` of `arts` and a stable sort `ranked` of their items. */
  lemma ReportEntries(arts: seq<Artifact>, t: Tally, ranked: seq<(int, nat)>)
    requires AddArtifacts(arts) == Some(t)
    requires Valid(t)
    requires SortedDesc(ranked) && multiset(ranked) == multiset(Items(t))
    ensures TopListed(arts, Top(ranked))
  {
    var top := Top(ranked);
    AddArtifactsSpec(arts);
    TopShape(t, ranked);
    DistinctKeysCount(t);
    forall i | 0 <= i < |top|
      ensures top[i].0 in AllKeys(arts) && top[i].1 == TotalFor(arts, top[i].0)
    {
      assert Get(t, top[i].0) == t.count[top[i].0];
    }
  }

  /** The totals the aggregation loop ends with, when it does not crash. */
  lemma TotalsOf(arts: seq<Artifact>, t: Tally)
    requires AddArtifacts(arts) == Some(t)
    ensures Valid(t) && t.keys == Dedup(AllKeys(arts))
    ensures forall v :: Get(t, v) == TotalFor(arts, v)
  {
    AddArtifactsSpec(arts);
  }

  /** No value left out of `Top(ranked)` has a total above the last entry listed. */
  lemma ReportOmitted(arts: seq<Artifact>, t: Tally, ranked: seq<(int, nat)>)
    requires AddArtifacts(arts) == Some(t)
    requires Valid(t)
    requires SortedDesc(ranked) && multiset(ranked) == multiset(Items(t))
    ensures TopOmittedBelow(arts, Top(ranked))
  {
    var top := Top(ranked);
    TopOmitted(t, ranked);
    assert |ranked| == |multiset(ranked)| == |multiset(Items(t))| == |Items(t)|;
    forall v | v in AllKeys(arts) && (forall i :: 0 <= i < |top| ==> top[i].0 != v)
      ensures |top| > 0 && TotalFor(arts, v) <= top[|top| - 1].1
    {
      TotalOfKey(arts, t, v);
    }
  }

  /** A value some artifact mentions is a key of the totals, holding its total. */
  lemma TotalOfKey(arts: seq<Artifact>, t: Tally, v: int)
    requires AddArtifacts(arts) == Some(t)
    requires v in AllKeys(arts)
    ensures v in t.keys && v in t.count && t.count[v] == TotalFor(arts, v)
  {
    TotalsOf(arts, t);
    assert Get(t, v) == t.count[v];
  }

  /** Entries of `Top(ranked)` with equal totals are listed in the order their values were first seen. */
  lemma ReportTies(arts: seq<Artifact>, t: Tally, ranked: seq<(int, nat)>)
    requires AddArtifacts(arts) == Some(t)
    requires Valid(t)
    requires SortedDesc(ranked) && forall c :: WithCount(ranked, c) == WithCount(Items(t), c)
    ensures TopTiesFirstSeen(arts, Top(ranked))
  {
    var top := Top(ranked);
    var keys := Dedup(AllKeys(arts));
    AddArtifactsSpec(arts);
    assert t.keys == keys;
    forall i, j | 0 <= i < j < |top| && top[i].1 == top[j].1
      ensures exists p, q :: 0 <= p < q < |keys| && keys[p] == top[i].0 && keys[q] == top[j].0
    {
      assert top[i] == ranked[i] && top[j] == ranked[j];
      StableTies(ranked, Items(t), i, j);
      var p, q :| 0 <= p < q < |Items(t)| && Items(t)[p] == ranked[i] && Items(t)[q] == ranked[j];
      assert keys[p] == top[i].0 && keys[q] == top[j].0;
    }
  }

  /** A value left out of `Top(ranked)` with the total of a listed entry was first seen after that entry's value. */
  lemma ReportCut(arts: seq<Artifact>, t: Tally, ranked: seq<(int, nat)>)
    requires AddArtifacts(arts) == Some(t)
    requires Valid(t)
    requires SortedDesc(ranked) && multiset(ranked) == multiset(Items(t))
    requires forall c :: WithCount(ranked, c) == WithCount(Items(t), c)
    ensures TopCutFirstSeen(arts, Top(ranked))
  {
    var top := Top(ranked);
    TotalsOf(arts, t);
    forall v, i | && v in AllKeys(arts) && 0 <= i < |top| && top[i].1 == TotalFor(arts, v)
                  && (forall k :: 0 <= k < |top| ==> top[k].0 != v)
      ensures exists p, q :: 0 <= p < q < |t.keys| && t.keys[p] == top[i].0 && t.keys[q] == v
    {
      assert v in t.keys;
      var p, q := TopCut(t, ranked, i, v);
    }
  }

  /**
   * The order in which the glob lists the artifacts decides ties: two
   * artifacts `{"1": 1}` and `{"2": 1}` give the same totals in either order,
   * but the values are first seen, and so ranked, in the order the artifacts
   * are read.
   */
  lemma GlobOrderDecidesTies()
    ensures var a, b := Loaded([("1", 1)]), Loaded([("2", 1)]);
            && AddArtifacts([a, b]) == Some(Tally([1, 2], map[1 := 1, 2 := 1]))
            && AddArtifacts([b, a]) == Some(Tally([2, 1], map[1 := 1, 2 := 1]))
  {
    OneThenTwo();
    TwoThenOne();
  }

  lemma OneThenTwo()
    ensures AddArtifacts([Loaded([("1", 1)]), Loaded([("2", 1)])]) == Some(Tally([1, 2], map[1 := 1, 2 := 1]))
  {
    SmallKeys();
    ReadInOrder("1", 1, 1, "2", 2, 1);
  }

  lemma TwoThenOne()
    ensures AddArtifacts([Loaded([("2", 1)]), Loaded([("1", 1)])]) == Some(Tally([2, 1], map[1 := 1, 2 := 1]))
  {
    SmallKeys();
    ReadInOrder("2", 2, 1, "1", 1, 1);
    assert map[2 := 1, 1 := 1] == map[1 := 1, 2 := 1];
  }

  lemma SmallKeys()
    ensures EncodeInt(1) == "1" && EncodeInt(2) == "2"
  {
  }

  /** Two single-entry artifacts with different values: the values are first seen in the order the artifacts are read. */
  lemma ReadInOrder(sk: string, k: int, n: nat, sj: string, j: int, m: nat)
    requires sk == EncodeInt(k) && sj == EncodeInt(j) && j != k
    ensures AddArtifacts([Loaded([(sk, n)]), Loaded([(sj, m)])]) == Some(Tally([k, j], map[k := n, j := m]))
  {
    var a, b := Loaded([(sk, n)]), Loaded([(sj, m)]);
    SingleEntry(k, n);
    SingleEntry(j, m);
    TwoArtifacts(a, b);
    AddTwoKeys(k, n, j, m);
  }

  /** Adding `(k, n)` and then `(j, m)` with `j != k` to an empty dictionary. */
  lemma AddTwoKeys(k: int, n: nat, j: int, m: nat)
    requires j != k
    ensures AddAll(AddAll(Empty, [(k, n)]), [(j, m)]) == Tally([k, j], map[k := n, j := m])
  {
    var pk: seq<(int, nat)> := [(k, n)];
    var pj: seq<(int, nat)> := [(j, m)];
    assert pk[..0] == [] && pj[..0] == [];
    assert AddAll(Empty, pk) == Add(Empty, k, n);
    assert Add(Empty, k, n) == Tally([k], map[k := n]);
    assert AddAll(Tally([k], map[k := n]), pj) == Add(Tally([k], map[k := n]), j, m);
  }

  /** An artifact with the single member `str(k): n` contributes the pair `(k, n)`. */
  lemma SingleEntry(k: int, n: nat)
    ensures Contribution(Loaded([(EncodeInt(k), n)])) == Some([(k, n)])
  {
    var es: seq<(string, nat)> := [(EncodeInt(k), n)];
    KeyRoundTrip(k);
    assert es[..0] == [];
    var ps: seq<(int, nat)> := [(k, n)];
    assert [] + ps == ps;
    assert DecodeEntries(es[..0]) == Some([]);
    assert ParseInt(es[0].0) == Some(k);
    assert DecodeEntries(es) == Some(ps);
  }

  /** Two artifacts that load are added in the order they are read. */
  lemma TwoArtifacts(a: Artifact, b: Artifact)
    requires Contribution(a).Some? && Contribution(b).Some?
    ensures AddArtifacts([a, b]) == Some(AddAll(AddAll(Empty, Contribution(a).value), Contribution(b).value))
  {
    var one: seq<Artifact> := [a];
    var ab: seq<Artifact> := [a, b];
    assert ab[..1] == one && one[..0] == [];
    assert AddArtifacts(one) == Some(AddAll(Empty, Contribution(a).value));
  }
}
