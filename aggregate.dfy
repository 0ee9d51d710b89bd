/**
 * The aggregation loop of `reducer()` in scale_map.py: every artifact found in
 * the output directory is loaded and its counts are added, key by key, into
 * one `final_counts` dictionary. An artifact that fails to load is skipped; a
 * key that does not convert with `int(num)` stops the reducer.
 */
module Aggregate {
  import opened Wrappers
  import opened PyInt
  import opened Counts
  import opened Artifact
  import opened Seqs

  /** The (integer, count) pairs one artifact contributes: none when it failed to load, `None` when a key does not convert. */
  function Contribution(a: Artifact): Option<seq<(int, nat)>>
  {
    match a
    case LoadFailed => Some([])
    case Loaded(es) => DecodeEntries(es)
  }

  /** The totals after the loop has run over `arts`, in order; `None` once some key failed to convert. */
  function AddArtifacts(arts: seq<Artifact>): Option<Tally>
  {
    if arts == [] then Some(Empty)
    else
      match AddArtifacts(arts[..|arts| - 1])
      case None => None
      case Some(t) =>
        match Contribution(arts[|arts| - 1])
        case None => None
        case Some(ps) => Some(AddAll(t, ps))
  }

  /** The artifact failed to load, or every one of its keys converts. */
  predicate ArtifactOk(a: Artifact)
  {
    a.LoadFailed? || EntriesOk(a.entries)
  }

  predicate AllOk(arts: seq<Artifact>)
  {
    forall i :: 0 <= i < |arts| ==> ArtifactOk(arts[i])
  }

  /** The count of `v` in one artifact; 0 for one that failed to load. */
  function ArtifactCount(a: Artifact, v: int): nat
  {
    match Contribution(a)
    case None => 0
    case Some(ps) => PairsCount(ps, v)
  }

  /** The sum over all artifacts of their count of `v`, absent entries and failed loads counting 0. */
  function TotalFor(arts: seq<Artifact>, v: int): nat
  {
    if arts == [] then 0
    else TotalFor(arts[..|arts| - 1], v) + ArtifactCount(arts[|arts| - 1], v)
  }

  /** The integers one artifact mentions, in file order. */
  function ArtifactKeys(a: Artifact): seq<int>
  {
    match Contribution(a)
    case None => []
    case Some(ps) => PairKeys(ps)
  }

  /** The integers all artifacts mention, artifact after artifact. */
  function AllKeys(arts: seq<Artifact>): seq<int>
  {
    if arts == [] then []
    else AllKeys(arts[..|arts| - 1]) + ArtifactKeys(arts[|arts| - 1])
  }

  lemma ContributionOk(a: Artifact)
    ensures Contribution(a).Some? <==> ArtifactOk(a)
  {
    if a.Loaded? {
      DecodeEntriesSpec(a.entries);
    }
  }

  /** The loop fails exactly when some loaded artifact has a key that does not convert. */
  lemma {:induction false} AddArtifactsOk(arts: seq<Artifact>)
    ensures AddArtifacts(arts).Some? <==> AllOk(arts)
  {
    if arts != [] {
      AddArtifactsOk(arts[..|arts| - 1]);
      ContributionOk(arts[|arts| - 1]);
      AllOkSnoc(arts);
    }
  }

  lemma AllOkSnoc(arts: seq<Artifact>)
    requires arts != []
    ensures AllOk(arts) <==> AllOk(arts[..|arts| - 1]) && ArtifactOk(arts[|arts| - 1])
  {
    var p := arts[..|arts| - 1];
    assert forall i :: 0 <= i < |p| ==> p[i] == arts[i];
  }

  /**
   * The loop fails exactly when some loaded artifact has a key that does not
   * convert; otherwise the total of every integer is the sum of its counts over
   * all loaded artifacts, and the integers are ordered by where they first
   * appear, artifact after artifact.
   */
  lemma {:induction false} AddArtifactsSpec(arts: seq<Artifact>)
    ensures AddArtifacts(arts).Some? <==> AllOk(arts)
    ensures AddArtifacts(arts).Some? ==>
              var t := AddArtifacts(arts).value;
              && Valid(t)
              && (forall v :: Get(t, v) == TotalFor(arts, v))
              && t.keys == Dedup(AllKeys(arts))
  {
    if arts != [] {
      var p := arts[..|arts| - 1];
      var a := arts[|arts| - 1];
      AddArtifactsSpec(p);
      ContributionOk(a);
      assert forall i :: 0 <= i < |p| ==> p[i] == arts[i];
      if AddArtifacts(p).Some? && Contribution(a).Some? {
        var t := AddArtifacts(p).value;
        var ps := Contribution(a).value;
        AddAllSpec(t, ps, AllKeys(p));
      } else if AddArtifacts(p).None? {
        assert !AllOk(p);
      } else {
        assert !ArtifactOk(arts[|arts| - 1]);
      }
    }
  }

  /** The totals hold, in first-seen order, the sum over the artifacts of the counts of each integer. */
  ghost predicate SumsOf(arts: seq<Artifact>, t: Tally)
  {
    && Valid(t)
    && (forall v :: Get(t, v) == TotalFor(arts, v))
    && t.keys == Dedup(AllKeys(arts))
  }

  /** A key that does not convert in the first `j` members of an artifact is one in the whole artifact. */
  lemma DecodePrefixFails(es: seq<(string, nat)>, j: nat)
    requires j <= |es| && DecodeEntries(es[..j]).None?
    ensures DecodeEntries(es).None?
  {
    DecodeEntriesSpec(es[..j]);
    DecodeEntriesSpec(es);
    assert forall i :: 0 <= i < j ==> es[..j][i] == es[i];
  }

  /** A failure among the first `i` artifacts is a failure of the whole loop. */
  lemma AddPrefixFails(arts: seq<Artifact>, i: nat)
    requires i <= |arts| && AddArtifacts(arts[..i]).None?
    ensures AddArtifacts(arts).None?
  {
    AddArtifactsOk(arts[..i]);
    AddArtifactsOk(arts);
    assert forall k :: 0 <= k < i ==> arts[..i][k] == arts[k];
  }

  /**
   * The aggregation loop of `reducer()`: for each artifact that loaded, add
   * every `(int(num), count)` to `final_counts`; stop with `None` at the first
   * key that does not convert.
   */
  method Aggregate(arts: seq<Artifact>) returns (r: Option<Tally>)
    ensures r == AddArtifacts(arts)
    ensures r.Some? <==> AllOk(arts)
    ensures r.Some? ==> SumsOf(arts, r.value)
  {
    var finalCounts := Empty;
    var i := 0;
    while i < |arts|
      invariant 0 <= i <= |arts|
      invariant AddArtifacts(arts[..i]) == Some(finalCounts)
    {
      if arts[i].Loaded? {
        var es := arts[i].entries;
        var next := AddMembers(finalCounts, es);
        if next.None? {
          ArtifactFails(arts, i, finalCounts);
          AddArtifactsOk(arts);
          return None;
        }
        ArtifactStep(arts, i, finalCounts, DecodeEntries(es).value);
        finalCounts := next.value;
      } else {
        ArtifactStep(arts, i, finalCounts, []);
      }
      i := i + 1;
    }
    TakeAll(arts);
    r := Some(finalCounts);
    Succeeded(arts, finalCounts);
  }

  /** When the loop succeeds, every key converted and the totals are the sums over the artifacts. */
  lemma Succeeded(arts: seq<Artifact>, t: Tally)
    requires AddArtifacts(arts) == Some(t)
    ensures AllOk(arts) && SumsOf(arts, t)
  {
    AddArtifactsSpec(arts);
  }

  /**
   * The inner loop of `reducer()` over one loaded artifact: `final_counts[int(num)]
   * += count` for each member in turn; `None` at the first key that does not
   * convert, and otherwise the totals with every converted pair added.
   */
  method AddMembers(counts: Tally, es: seq<(string, nat)>) returns (r: Option<Tally>)
    ensures r.None? <==> DecodeEntries(es).None?
    ensures r.Some? ==> r.value == AddAll(counts, DecodeEntries(es).value)
  {
    var total := counts;
    var j := 0;
    while j < |es|
      invariant 0 <= j <= |es|
      invariant DecodeEntries(es[..j]).Some?
      invariant total == AddAll(counts, DecodeEntries(es[..j]).value)
    {
      var num := ParseInt(es[j].0);
      if num.None? {
        DecodePrefixFails(es, j + 1);
        return None;
      }
      EntryStep(counts, es, j, num.value);
      total := Add(total, num.value, es[j].1);
      j := j + 1;
    }
    TakeAll(es);
    return Some(total);
  }

  /** A loaded artifact with a key that does not convert makes the whole loop fail. */
  lemma ArtifactFails(arts: seq<Artifact>, i: nat, t: Tally)
    requires i < |arts| && AddArtifacts(arts[..i]) == Some(t) && Contribution(arts[i]).None?
    ensures AddArtifacts(arts).None?
  {
    TakeOneMore(arts, i);
    AddPrefixFails(arts, i + 1);
  }

  /** One more member added by the inner loop: it decodes, and its pair is added to the totals. */
  lemma EntryStep(before: Tally, es: seq<(string, nat)>, j: nat, k: int)
    requires j < |es| && DecodeEntries(es[..j]).Some? && ParseInt(es[j].0) == Some(k)
    ensures DecodeEntries(es[..j + 1]) == Some(DecodeEntries(es[..j]).value + [(k, es[j].1)])
    ensures AddAll(before, DecodeEntries(es[..j + 1]).value) == Add(AddAll(before, DecodeEntries(es[..j]).value), k, es[j].1)
  {
    var ps := DecodeEntries(es[..j]).value;
    TakeOneMore(es, j);
    FrontOfSnoc(ps, (k, es[j].1));
  }

  /** One more artifact added by the outer loop. */
  lemma ArtifactStep(arts: seq<Artifact>, i: nat, t: Tally, ps: seq<(int, nat)>)
    requires i < |arts| && AddArtifacts(arts[..i]) == Some(t) && Contribution(arts[i]) == Some(ps)
    ensures AddArtifacts(arts[..i + 1]) == Some(AddAll(t, ps))
  {
    TakeOneMore(arts, i);
  }

  lemma {:induction false} TotalForConcat(a: seq<Artifact>, b: seq<Artifact>, v: int)
    ensures TotalFor(a + b, v) == TotalFor(a, v) + TotalFor(b, v)
  {
    if b == [] {
      assert a + b == a;
    } else {
      TotalForConcat(a, b[..|b| - 1], v);
      assert (a + b)[..|a + b| - 1] == a + b[..|b| - 1];
    }
  }

  /** The total of every integer does not depend on the order in which the artifacts are visited. */
  lemma {:induction false} TotalForPermutation(a: seq<Artifact>, b: seq<Artifact>, v: int)
    requires multiset(a) == multiset(b)
    ensures TotalFor(a, v) == TotalFor(b, v)
  {
    if a == [] {
      assert |b| == |multiset(b)| == 0;
    } else {
      var x := a[|a| - 1];
      var j := IndexOfMember(b, x);
      RemoveLast(a);
      RemoveAt(b, j);
      TotalForPermutation(a[..|a| - 1], b[..j] + b[j + 1..], v);
      TotalForWithout(b, j, v);
    }
  }

  /** Taking one artifact out of `b` takes its count of `v` off the total. */
  lemma TotalForWithout(b: seq<Artifact>, j: nat, v: int)
    requires j < |b|
    ensures TotalFor(b, v) == TotalFor(b[..j] + b[j + 1..], v) + ArtifactCount(b[j], v)
  {
    var x := b[j];
    RemoveAt(b, j);
    TotalForConcat(b[..j] + [x], b[j + 1..], v);
    TotalForConcat(b[..j], [x], v);
    TotalForConcat(b[..j], b[j + 1..], v);
    assert [x][..0] == [];
  }

  /** An integer appears among the keys of all artifacts exactly when one artifact mentions it. */
  lemma {:induction false} AllKeysMention(arts: seq<Artifact>, v: int)
    ensures v in AllKeys(arts) <==> exists i :: 0 <= i < |arts| && v in ArtifactKeys(arts[i])
  {
    if arts != [] {
      AllKeysMention(arts[..|arts| - 1], v);
      AllKeysSnoc(arts);
      PrefixAt(arts);
    }
  }

  lemma AllKeysSnoc(arts: seq<Artifact>)
    requires arts != []
    ensures AllKeys(arts) == AllKeys(arts[..|arts| - 1]) + ArtifactKeys(arts[|arts| - 1])
  {
  }

  lemma SameMembers(a: seq<Artifact>, b: seq<Artifact>)
    requires multiset(a) == multiset(b)
    ensures forall x :: x in a <==> x in b
  {
    forall x
      ensures x in a <==> x in b
    {
      assert x in a <==> x in multiset(a);
      assert x in b <==> x in multiset(b);
    }
  }

  lemma AllOkPermutation(a: seq<Artifact>, b: seq<Artifact>)
    requires multiset(a) == multiset(b)
    ensures AllOk(a) <==> AllOk(b)
  {
    SameMembers(a, b);
    if AllOk(a) {
      forall i | 0 <= i < |b|
        ensures ArtifactOk(b[i])
      {
        assert b[i] in a;
      }
    }
    if AllOk(b) {
      forall i | 0 <= i < |a|
        ensures ArtifactOk(a[i])
      {
        assert a[i] in b;
      }
    }
  }

  lemma KeysPermutation(a: seq<Artifact>, b: seq<Artifact>, v: int)
    requires multiset(a) == multiset(b)
    ensures v in AllKeys(a) <==> v in AllKeys(b)
  {
    SameMembers(a, b);
    AllKeysMention(a, v);
    AllKeysMention(b, v);
    if v in AllKeys(a) {
      var i :| 0 <= i < |a| && v in ArtifactKeys(a[i]);
      assert a[i] in b;
      var j :| 0 <= j < |b| && b[j] == a[i];
    }
    if v in AllKeys(b) {
      var i :| 0 <= i < |b| && v in ArtifactKeys(b[i]);
      assert b[i] in a;
      var j :| 0 <= j < |a| && a[j] == b[i];
    }
  }

  /**
   * Aggregation does not depend on the order of the artifacts: any permutation
   * fails or succeeds alike, and on success every integer has the same total
   * and is present alike. (Only the order of the keys, which the ranking uses
   * for equal counts, can differ.)
   */
  lemma AggregateOrderIndependent(a: seq<Artifact>, b: seq<Artifact>)
    requires multiset(a) == multiset(b)
    ensures AddArtifacts(a).Some? <==> AddArtifacts(b).Some?
    ensures AddArtifacts(a).Some? ==>
              forall v :: && Get(AddArtifacts(a).value, v) == Get(AddArtifacts(b).value, v)
                          && (v in AddArtifacts(a).value.count <==> v in AddArtifacts(b).value.count)
  {
    AddArtifactsSpec(a);
    AddArtifactsSpec(b);
    AllOkPermutation(a, b);
    if AllOk(a) {
      var ta := AddArtifacts(a).value;
      var tb := AddArtifacts(b).value;
      forall v
        ensures Get(ta, v) == Get(tb, v)
        ensures v in ta.count <==> v in tb.count
      {
        TotalForPermutation(a, b, v);
        KeysPermutation(a, b, v);
        assert v in ta.count <==> v in ta.keys;
        assert v in tb.count <==> v in tb.keys;
      }
    }
  }
}
