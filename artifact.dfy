/**
 * The intermediate artifacts between the two phases of scale_map.py: each
 * mapper dictionary is written with `json.dump`, which turns its integer keys
 * into their decimal text, and the reducer reads it back with `json.load`
 * and turns each key into an integer again with `int(num)`.
 */
module Artifact {
  import opened Wrappers
  import opened PyInt
  import opened Counts
  import opened Seqs

  /**
   * What the reducer gets from one `*.json` file: the failure that its
   * `except (json.JSONDecodeError, FileNotFoundError)` catches, or the
   * members of the loaded JSON object in file order.
   */
  datatype Artifact = LoadFailed | Loaded(entries: seq<(string, nat)>)

  /** The JSON object members for the items `ps`: each integer key as its decimal text. */
  function EncodeItems(ps: seq<(int, nat)>): (es: seq<(string, nat)>)
    ensures |es| == |ps|
  {
    if ps == [] then []
    else
      var e := ps[|ps| - 1];
      EncodeItems(ps[..|ps| - 1]) + [(EncodeInt(e.0), e.1)]
  }

  /** `json.dump(result, f)` for a mapper dictionary: its items in dictionary order, keys as text. */
  function EncodeTally(t: Tally): seq<(string, nat)>
    requires Valid(t)
  {
    EncodeItems(Items(t))
  }

  /** Every member key converts with `int(num)`. */
  predicate EntriesOk(es: seq<(string, nat)>)
  {
    forall i :: 0 <= i < |es| ==> ParseInt(es[i].0).Some?
  }

  /**
   * `(int(num), count)` for every member of a loaded artifact, in file order;
   * `None` when some `int(num)` raises `ValueError`, which nothing in the
   * reducer catches.
   */
  function DecodeEntries(es: seq<(string, nat)>): Option<seq<(int, nat)>>
  {
    if es == [] then Some([])
    else
      match DecodeEntries(es[..|es| - 1])
      case None => None
      case Some(ps) =>
        var e := es[|es| - 1];
        match ParseInt(e.0)
        case None => None
        case Some(k) => Some(ps + [(k, e.1)])
  }

  /** Decoding fails exactly when some key does not convert, and otherwise converts every member in place. */
  lemma DecodeEntriesSpec(es: seq<(string, nat)>)
    ensures DecodeEntries(es).Some? <==> EntriesOk(es)
    ensures DecodeEntries(es).Some? ==>
              var ps := DecodeEntries(es).value;
              |ps| == |es|
              && forall i :: 0 <= i < |es| ==> ps[i] == (ParseInt(es[i].0).value, es[i].1)
  {
    DecodeOk(es);
    DecodeValues(es);
  }

  /** Decoding fails exactly when some key does not convert. */
  lemma {:induction false} DecodeOk(es: seq<(string, nat)>)
    ensures DecodeEntries(es).Some? <==> EntriesOk(es)
  {
    if es != [] {
      var p := es[..|es| - 1];
      DecodeOk(p);
      PrefixAt(es);
      if DecodeEntries(p).None? {
        assert !EntriesOk(p);
      } else if ParseInt(es[|es| - 1].0).None? {
        assert !EntriesOk(es);
      }
    }
  }

  /** A successful decoding converts every member in place. */
  lemma {:induction false} DecodeValues(es: seq<(string, nat)>)
    ensures DecodeEntries(es).Some? ==>
              var ps := DecodeEntries(es).value;
              |ps| == |es|
              && forall i :: 0 <= i < |es| ==> ParseInt(es[i].0) == Some(ps[i].0) && ps[i].1 == es[i].1
  {
    if es != [] {
      var p := es[..|es| - 1];
      DecodeValues(p);
      PrefixAt(es);
    }
  }

  /** The key round trip lifted to whole artifacts: the written members decode to exactly the items written. */
  lemma {:induction false} EncodeDecode(ps: seq<(int, nat)>)
    ensures DecodeEntries(EncodeItems(ps)) == Some(ps)
  {
    if ps != [] {
      SnocLast(ps);
      EncodeDecode(ps[..|ps| - 1]);
      EncodeSnoc(ps);
    }
  }

  /** Decoding the members written for `ps` adds the last item to what the members for the others decode to. */
  lemma EncodeSnoc(ps: seq<(int, nat)>)
    requires ps != []
    ensures DecodeEntries(EncodeItems(ps)) ==
              match DecodeEntries(EncodeItems(ps[..|ps| - 1]))
              case None => None
              case Some(q) => Some(q + [ps[|ps| - 1]])
  {
    var e := ps[|ps| - 1];
    var es := EncodeItems(ps[..|ps| - 1]);
    var x := (EncodeInt(e.0), e.1);
    KeyRoundTrip(e.0);
    assert EncodeItems(ps) == es + [x];
    var s := es + [x];
    assert s[..|s| - 1] == es && s[|s| - 1] == x;
  }

  /**
   * The write/read boundary loses nothing: the artifact of a mapper dictionary
   * decodes to that dictionary's items, and adding them into empty totals
   * gives back the dictionary, counts and key order alike.
   */
  lemma EncodedReloads(t: Tally)
    requires Valid(t)
    ensures DecodeEntries(EncodeTally(t)) == Some(Items(t))
    ensures AddAll(Empty, Items(t)) == t
  {
    EncodeDecode(Items(t));
    ItemsRebuild(t);
  }
}
