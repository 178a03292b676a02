/** How the converter picks its latitude, longitude, dataset and name
    columns: each is the first header, in column order, that a matching
    rule accepts (convert_excel_to_geojson.py, lines 38-106). */
module Columns {
  import opened Dicts
  import opened Strings

  const LatitudeNames: seq<string> := ["lat", "latitude", "y", "lat_deg", "lat_decimal"]
  const LongitudeNames: seq<string> := ["lon", "longitude", "lng", "long", "x", "lon_deg", "lon_decimal"]
  const DatasetNames: seq<string> := ["dataset", "source", "type", "category", "data_source"]
  const NameNames: seq<string> := ["name", "title", "location", "place", "site"]

  /** The test of lines 47-50: a listed name, or one containing "lat" or "y". */
  predicate IsLatitudeColumn(col: string)
  {
    var l := Lower(col);
    l in LatitudeNames || Contains(l, "lat") || Contains(l, "y")
  }

  /** The test of lines 56-59. */
  predicate IsLongitudeColumn(col: string)
  {
    var l := Lower(col);
    l in LongitudeNames || Contains(l, "lon") || Contains(l, "lng") || Contains(l, "long") || Contains(l, "x")
  }

  /** The test of lines 87-90. */
  predicate IsDatasetColumn(col: string)
  {
    var l := Lower(col);
    l in DatasetNames || Contains(l, "dataset") || Contains(l, "source")
  }

  /** The test of line 104: exact membership only. */
  predicate IsNameColumn(col: string)
  {
    Lower(col) in NameNames
  }

  /** The first position at or after `from` whose header satisfies `p`. */
  function FirstMatchFrom(cols: seq<string>, p: string -> bool, from: nat): (r: Option<nat>)
    ensures r.Some? ==> from <= r.value < |cols| && p(cols[r.value])
    decreases |cols| - from
  {
    if from >= |cols| then None
    else if p(cols[from]) then Some(from)
    else FirstMatchFrom(cols, p, from + 1)
  }

  /** The column a `for col in df.columns: if ...: break` search settles on. */
  function FirstMatch(cols: seq<string>, p: string -> bool): (r: Option<nat>)
    ensures r.Some? ==> r.value < |cols| && p(cols[r.value])
  {
    FirstMatchFrom(cols, p, 0)
  }

  lemma {:induction false} FirstMatchFromIff(cols: seq<string>, p: string -> bool, from: nat, i: nat)
    requires from <= |cols|
    ensures FirstMatchFrom(cols, p, from) == Some(i) <==>
            from <= i < |cols| && p(cols[i]) && forall j :: from <= j < i ==> !p(cols[j])
    ensures FirstMatchFrom(cols, p, from).None? <==> forall j :: from <= j < |cols| ==> !p(cols[j])
    decreases |cols| - from
  {
    if from < |cols| && !p(cols[from]) {
      FirstMatchFromIff(cols, p, from + 1, i);
    }
  }

  /** `FirstMatch` is the first matching column, and it is absent exactly
      when no column matches. */
  lemma FirstMatchIff(cols: seq<string>, p: string -> bool, i: nat)
    ensures FirstMatch(cols, p) == Some(i) <==>
            i < |cols| && p(cols[i]) && forall j :: 0 <= j < i ==> !p(cols[j])
    ensures FirstMatch(cols, p).None? <==> forall j :: 0 <= j < |cols| ==> !p(cols[j])
  {
    FirstMatchFromIff(cols, p, 0, i);
  }

  /** The `for ... break` search of lines 46-52, 55-61, 86-92 and 103-106. */
  method FindColumn(cols: seq<string>, p: string -> bool) returns (found: Option<nat>)
    ensures found.Some? ==> found.value < |cols| && p(cols[found.value])
    ensures found.Some? ==> forall j :: 0 <= j < found.value ==> !p(cols[j])
    ensures found.None? ==> forall j :: 0 <= j < |cols| ==> !p(cols[j])
    ensures found == FirstMatch(cols, p)
  {
    found := None;
    var i := 0;
    while i < |cols|
      invariant 0 <= i <= |cols|
      invariant forall j :: 0 <= j < i ==> !p(cols[j])
    {
      if p(cols[i]) {
        found := Some(i);
        FirstMatchIff(cols, p, i);
        return;
      }
      i := i + 1;
    }
    FirstMatchIff(cols, p, 0);
  }

  /** Every listed latitude name contains "lat" or "y", so the latitude rule
      is a pure substring rule. */
  lemma LatitudeRuleIsSubstringRule(col: string)
    ensures IsLatitudeColumn(col) <==> Contains(Lower(col), "lat") || Contains(Lower(col), "y")
  {
    var l := Lower(col);
    if l in LatitudeNames {
      if l == "y" {
        ContainsPrefix(l, "y");
      } else {
        assert "lat" <= l;
        ContainsPrefix(l, "lat");
      }
    }
  }

  /** Every listed longitude name contains "lon", "lng" or "x", so the
      longitude rule is a pure substring rule. */
  lemma LongitudeRuleIsSubstringRule(col: string)
    ensures IsLongitudeColumn(col) <==>
            Contains(Lower(col), "lon") || Contains(Lower(col), "lng") || Contains(Lower(col), "x")
  {
    var l := Lower(col);
    if l in LongitudeNames {
      if l == "lng" {
        ContainsPrefix(l, "lng");
      } else if l == "x" {
        ContainsPrefix(l, "x");
      } else {
        assert "lon" <= l;
        ContainsPrefix(l, "lon");
      }
    }
    if Contains(l, "long") {
      ContainsIff(l, "long");
      var i :| OccursAt(l, "long", i);
      assert l[i..i + 4] == "long";
      assert l[i..i + 3] == l[i..i + 4][..3] == "lon";
      assert OccursAt(l, "lon", i);
      ContainsIff(l, "lon");
    }
  }

  /** Header matching ignores case. */
  lemma MatchingIgnoresCase(col: string)
    ensures IsLatitudeColumn(col) == IsLatitudeColumn(Lower(col))
    ensures IsLongitudeColumn(col) == IsLongitudeColumn(Lower(col))
    ensures IsDatasetColumn(col) == IsDatasetColumn(Lower(col))
    ensures IsNameColumn(col) == IsNameColumn(Lower(col))
  {
    LowerIdempotent(col);
  }

  /** A "Type" column placed before the real coordinate columns is taken as
      the latitude column, because "type" contains "y"; it is also the
      dataset column. */
  lemma TypeColumnShadowsLatitude()
    ensures FirstMatch(["Type", "Latitude", "Longitude"], IsLatitudeColumn) == Some(0)
    ensures FirstMatch(["Type", "Latitude", "Longitude"], IsDatasetColumn) == Some(0)
  {
    var cols := ["Type", "Latitude", "Longitude"];
    assert Lower("Type") == "type";
    assert Contains("type", "y") by {
      assert OccursAt("type", "y", 1);
      ContainsIff("type", "y");
    }
    FirstMatchIff(cols, IsLatitudeColumn, 0);
    FirstMatchIff(cols, IsDatasetColumn, 0);
  }

  /** Nothing keeps latitude and longitude apart: a header "xy" is both. */
  lemma CoordinatesMayShareColumn()
    ensures FirstMatch(["xy"], IsLatitudeColumn) == Some(0)
    ensures FirstMatch(["xy"], IsLongitudeColumn) == Some(0)
  {
    assert Lower("xy") == "xy";
    assert Contains("xy", "y") by {
      assert OccursAt("xy", "y", 1);
      ContainsIff("xy", "y");
    }
    ContainsPrefix("xy", "x");
    FirstMatchIff(["xy"], IsLatitudeColumn, 0);
    FirstMatchIff(["xy"], IsLongitudeColumn, 0);
  }
}
