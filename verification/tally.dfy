/** The per-dataset breakdown `main` prints after a successful conversion
    (convert_excel_to_geojson.py, lines 234-238). */
module Tally {
  import opened Dicts
  import opened Convert

  /** `feature['properties'].get('dataset', 'Unknown')`. */
  function DatasetOf(f: Feature): Value
  {
    Get(f.properties, "dataset").GetOr(Str("Unknown"))
  }

  /** How many of `fs` belong to dataset `d`. */
  function Occurrences(fs: seq<Feature>, d: Value): nat
  {
    if fs == [] then 0
    else Occurrences(fs[..|fs| - 1], d) + (if DatasetOf(fs[|fs| - 1]) == d then 1 else 0)
  }

  /** A dataset that some feature carries occurs at least once. */
  lemma {:induction false} OccurrencesPositive(fs: seq<Feature>, i: nat)
    requires i < |fs|
    ensures Occurrences(fs, DatasetOf(fs[i])) > 0
  {
    if i < |fs| - 1 {
      assert fs[..|fs| - 1][i] == fs[i];
      OccurrencesPositive(fs[..|fs| - 1], i);
    }
  }

  lemma OccurrencesStep(fs: seq<Feature>, i: nat, d: Value)
    requires i < |fs|
    ensures Occurrences(fs[..i + 1], d) == Occurrences(fs[..i], d) + (if DatasetOf(fs[i]) == d then 1 else 0)
  {
    assert fs[..i + 1][..i] == fs[..i];
  }

  /** The `datasets` dict built by the loop of lines 235-238. */
  method TallyDatasets(features: seq<Feature>) returns (tally: Dict<Value, nat>)
    ensures Distinct(Keys(tally))
    ensures forall d :: Get(tally, d).GetOr(0) == Occurrences(features, d)
    ensures forall d :: d in Keys(tally) <==> Occurrences(features, d) > 0
    ensures forall i :: 0 <= i < |features| ==> DatasetOf(features[i]) in Keys(tally)
    ensures Total(tally) == |features|
  {
    tally := [];
    var i := 0;
    while i < |features|
      invariant 0 <= i <= |features|
      invariant Distinct(Keys(tally))
      invariant forall d :: Get(tally, d).GetOr(0) == Occurrences(features[..i], d)
      invariant forall d :: d in Keys(tally) <==> Occurrences(features[..i], d) > 0
      invariant Total(tally) == i
    {
      var d := DatasetOf(features[i]);
      var count := Get(tally, d).GetOr(0);
      var next := Put(tally, d, count + 1);
      PutTotal(tally, d, count + 1);
      PutKeepsKeysDistinct(tally, d, count + 1);
      forall e ensures Get(next, e).GetOr(0) == Occurrences(features[..i + 1], e) {
        GetPut(tally, d, count + 1, e);
        OccurrencesStep(features, i, e);
      }
      forall e ensures e in Keys(next) <==> Occurrences(features[..i + 1], e) > 0 {
        OccurrencesStep(features, i, e);
      }
      tally := next;
      i := i + 1;
    }
    assert features[..i] == features;
    forall j | 0 <= j < |features| ensures DatasetOf(features[j]) in Keys(tally) {
      OccurrencesPositive(features, j);
    }
  }
}
