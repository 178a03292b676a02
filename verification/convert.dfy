/** `excel_to_geojson` (convert_excel_to_geojson.py, lines 14-209): pick the
    columns, clean the rows, and emit one GeoJSON Point feature per
    surviving row, in row order. */
module Convert {
  import opened Dicts
  import opened Strings
  import opened Sheet
  import opened Columns

  /** A property value as it is written to the JSON output. */
  datatype Value = Null | Num(number: real) | Str(text: string)

  /** A feature's `properties` dict. */
  type Properties = Dict<string, Value>

  /** The converter only emits `Point` geometries; `coordinates` is the JSON array. */
  datatype Geometry = Point(coordinates: seq<real>)

  datatype Feature = Feature(geometry: Geometry, properties: Properties)

  /** `{"type": "FeatureCollection", "features": [...]}`. */
  datatype FeatureCollection = FeatureCollection(features: seq<Feature>)

  /** A successful conversion: the collection it returns and the count of
      removed rows it reports on the console (line 129). */
  datatype Conversion = Conversion(collection: FeatureCollection, removed: nat)

  /** The column positions chosen for `lat_col`, `lon_col`, `dataset_col` and `name_col`. */
  datatype Selection = Selection(lat: nat, lon: nat, dataset: Option<nat>, name: Option<nat>)

  predicate Fits(sel: Selection, width: nat)
  {
    && sel.lat < width && sel.lon < width
    && (sel.dataset.Some? ==> sel.dataset.value < width)
    && (sel.name.Some? ==> sel.name.value < width)
  }

  /** `df.columns[i]` for a typed index `i`: negative indices count from the
      end, and anything else raises `IndexError` (None here). */
  function PyIndex(i: int, n: nat): (r: Option<nat>)
    ensures r.Some? <==> -(n as int) <= i < n
    ensures r.Some? ==> r.value < n && (i >= 0 ==> r.value == i) && (i < 0 ==> r.value == n + i)
  {
    if 0 <= i < n then Some(i) else if -(n as int) <= i < 0 then Some(n + i) else None
  }

  /** The coordinate columns (lines 45-77): the detected pair when both rules
      find a column, otherwise the two indices the user types. `answer` is
      None when the input is not an integer. */
  function CoordinateColumns(cols: seq<string>, answer: Option<(int, int)>): (r: Option<(nat, nat)>)
    ensures r.Some? ==> r.value.0 < |cols| && r.value.1 < |cols|
  {
    var lat, lon := FirstMatch(cols, IsLatitudeColumn), FirstMatch(cols, IsLongitudeColumn);
    if lat.Some? && lon.Some? then Some((lat.value, lon.value))
    else if answer.None? then None
    else
      var a, b := PyIndex(answer.value.0, |cols|), PyIndex(answer.value.1, |cols|);
      if a.Some? && b.Some? then Some((a.value, b.value)) else None
  }

  /** All four columns the converter uses, or None when it returns None. */
  function Detect(cols: seq<string>, answer: Option<(int, int)>): (r: Option<Selection>)
    ensures r.Some? ==> Fits(r.value, |cols|)
  {
    match CoordinateColumns(cols, answer)
    case None => None
    case Some((lat, lon)) =>
      Some(Selection(lat, lon, FirstMatch(cols, IsDatasetColumn), FirstMatch(cols, IsNameColumn)))
  }

  /** When both coordinate columns are recognised the user is never asked. */
  lemma DetectionIgnoresAnswerWhenRecognised(cols: seq<string>, answer: Option<(int, int)>)
    requires FirstMatch(cols, IsLatitudeColumn).Some? && FirstMatch(cols, IsLongitudeColumn).Some?
    ensures Detect(cols, answer).Some? && Detect(cols, answer) == Detect(cols, None)
    ensures Detect(cols, answer).value.lat == FirstMatch(cols, IsLatitudeColumn).value
    ensures Detect(cols, answer).value.lon == FirstMatch(cols, IsLongitudeColumn).value
  {
  }

  /** Otherwise the conversion goes ahead exactly when both typed indices are valid. */
  lemma DetectionFallsBackToAnswer(cols: seq<string>, answer: Option<(int, int)>)
    requires FirstMatch(cols, IsLatitudeColumn).None? || FirstMatch(cols, IsLongitudeColumn).None?
    ensures Detect(cols, answer).Some? <==>
            answer.Some? && -|cols| <= answer.value.0 < |cols| && -|cols| <= answer.value.1 < |cols|
  {
  }

  /** The value stored for a copied column (lines 151-156). */
  function CellValue(c: Cell): Value
  {
    match c
    case Missing => Null
    case Number(v, _) => Num(v)
    case Text(t, _) => Str(t)
  }

  /** `str(value)` of a present cell. */
  function Shown(c: Cell): string
    requires !c.Missing?
  {
    if c.Number? then c.shown else c.text
  }

  /** `f"Point {idx+1}"`. */
  function DefaultName(index: nat): string
  {
    "Point " + DecimalString(index + 1)
  }

  /** Rows with different index labels get different default names. */
  lemma DefaultNamesDistinct(a: nat, b: nat)
    requires a != b
    ensures DefaultName(a) != DefaultName(b)
  {
    if DefaultName(a) == DefaultName(b) {
      assert DecimalString(a + 1) == DefaultName(a)[6..] == DefaultName(b)[6..] == DecimalString(b + 1);
      DecimalStringInjective(a + 1, b + 1);
    }
  }

  /** The `name` property (lines 159-162). */
  function FeatureName(cells: seq<Cell>, sel: Selection, index: nat): string
    requires sel.name.Some? ==> sel.name.value < |cells|
  {
    if sel.name.Some? && !cells[sel.name.value].Missing? then Shown(cells[sel.name.value])
    else DefaultName(index)
  }

  /** The `dataset` property (lines 164-167). */
  function DatasetLabel(cells: seq<Cell>, sel: Selection): string
    requires sel.dataset.Some? ==> sel.dataset.value < |cells|
  {
    if sel.dataset.Some? && !cells[sel.dataset.value].Missing? then Shown(cells[sel.dataset.value])
    else "Unknown"
  }

  /** The keys the converter always sets after copying the columns. */
  predicate IsStandardKey(k: string)
  {
    k == "name" || k == "dataset" || k == "latitude" || k == "longitude"
  }

  /** The key order that the four standard assignments of lines 159-170
      leave behind on a dict whose keys are `ks`. */
  function StandardKeyOrder(ks: seq<string>): seq<string>
  {
    AddKeys(ks, ["name", "dataset", "latitude", "longitude"])
  }

  /** The names, in column order, of the first `j` columns other than the
      two coordinate columns. */
  function CopiedColumns(cols: seq<string>, lat: nat, lon: nat, j: nat): (r: seq<string>)
    requires j <= |cols|
    ensures forall k :: k in r <==> exists c :: 0 <= c < j && c != lat && c != lon && cols[c] == k
  {
    if j == 0 then []
    else
      var prefix := CopiedColumns(cols, lat, lon, j - 1);
      if j - 1 != lat && j - 1 != lon then prefix + [cols[j - 1]] else prefix
  }

  /** The keys of a feature's properties (lines 148-170): every column but
      the coordinate columns, in column order, then whichever of `name`,
      `dataset`, `latitude` and `longitude` are not already among them. */
  ghost predicate PropertyKeys(props: Properties, cols: seq<string>, sel: Selection)
    requires sel.lat < |cols| && sel.lon < |cols|
  {
    && Distinct(Keys(props))
    && CopiedColumns(cols, sel.lat, sel.lon, |cols|) <= Keys(props)
    && (forall k :: k in Keys(props) <==> k in CopiedColumns(cols, sel.lat, sel.lon, |cols|) || IsStandardKey(k))
  }

  /** The exact key order of a feature's properties (lines 148-170), which
      is the order the JSON output lists them in: the copied columns in
      column order, then `name`, `dataset`, `latitude` and `longitude` in
      that order, each only when no copied column already has that name. */
  predicate KeysInOrder(props: Properties, cols: seq<string>, sel: Selection)
    requires sel.lat < |cols| && sel.lon < |cols|
  {
    Keys(props) == StandardKeyOrder(CopiedColumns(cols, sel.lat, sel.lon, |cols|))
  }

  /** The values of a feature's properties (lines 151-170): copied columns
      hold their cell (missing as null), and `name`, `dataset`, `latitude`
      and `longitude` override any same-named column. */
  ghost predicate PropertyValues(props: Properties, cols: seq<string>, cells: seq<Cell>, index: nat,
                                 sel: Selection, lat: real, lon: real)
    requires |cells| == |cols| && Fits(sel, |cols|)
  {
    && (forall c :: 0 <= c < |cols| && c != sel.lat && c != sel.lon && !IsStandardKey(cols[c]) ==>
          Get(props, cols[c]) == Some(CellValue(cells[c])))
    && Get(props, "name") == Some(Str(FeatureName(cells, sel, index)))
    && Get(props, "dataset") == Some(Str(DatasetLabel(cells, sel)))
    && Get(props, "latitude") == Some(Num(lat))
    && Get(props, "longitude") == Some(Num(lon))
  }

  /** What the source promises of one feature's properties. */
  ghost predicate PropertiesOf(props: Properties, cols: seq<string>, cells: seq<Cell>, index: nat,
                               sel: Selection, lat: real, lon: real)
  {
    && |cells| == |cols|
    && Fits(sel, |cols|)
    && PropertyKeys(props, cols, sel)
    && PropertyValues(props, cols, cells, index, sel, lat, lon)
  }

  /** Fills one row's `properties` dict in place (lines 148-170). */
  method BuildProperties(cols: seq<string>, cells: seq<Cell>, index: nat, sel: Selection, lat: real, lon: real)
    returns (props: Properties)
    requires Distinct(cols) && |cells| == |cols| && Fits(sel, |cols|)
    ensures PropertiesOf(props, cols, cells, index, sel, lat, lon)
    ensures KeysInOrder(props, cols, sel)
  {
    props := [];
    var j := 0;
    while j < |cols|
      invariant 0 <= j <= |cols|
      invariant Distinct(Keys(props))
      invariant Keys(props) == CopiedColumns(cols, sel.lat, sel.lon, j)
      invariant forall c :: 0 <= c < j && c != sel.lat && c != sel.lon ==>
                  Get(props, cols[c]) == Some(CellValue(cells[c]))
    {
      if j != sel.lat && j != sel.lon {
        var value := CellValue(cells[j]);
        assert cols[j] !in Keys(props);
        KeysPut(props, cols[j], value);
        PutKeepsKeysDistinct(props, cols[j], value);
        forall c | 0 <= c <= j ensures Get(Put(props, cols[j], value), cols[c]) ==
                                      if c == j then Some(value) else Get(props, cols[c]) {
          GetPut(props, cols[j], value, cols[c]);
        }
        props := Put(props, cols[j], value);
      }
      j := j + 1;
    }
    FinishProperties(props, cols, cells, index, sel, lat, lon);
    ghost var copied := props;
    props := Put(props, "name", Str(FeatureName(cells, sel, index)));
    props := Put(props, "dataset", Str(DatasetLabel(cells, sel)));
    props := Put(props, "latitude", Num(lat));
    props := Put(props, "longitude", Num(lon));
    assert props == WithStandardKeys(copied, FeatureName(cells, sel, index), DatasetLabel(cells, sel), lat, lon);
  }

  /** The four assignments of lines 159-170, on top of the copied columns. */
  function WithStandardKeys(d: Properties, name: string, dataset: string, lat: real, lon: real): Properties
  {
    Put(Put(Put(Put(d, "name", Str(name)), "dataset", Str(dataset)), "latitude", Num(lat)), "longitude", Num(lon))
  }

  lemma StandardKeysExtendKeys(d: Properties, name: string, dataset: string, lat: real, lon: real)
    requires Distinct(Keys(d))
    ensures Distinct(Keys(WithStandardKeys(d, name, dataset, lat, lon)))
    ensures Keys(d) <= Keys(WithStandardKeys(d, name, dataset, lat, lon))
    ensures forall k :: k in Keys(WithStandardKeys(d, name, dataset, lat, lon)) <==> k in Keys(d) || IsStandardKey(k)
  {
    StandardKeysOrder(d, name, dataset, lat, lon);
    AddKeysExtends(Keys(d), ["name", "dataset", "latitude", "longitude"]);
  }


  /** The four standard assignments append the missing standard keys in
      assignment order. */
  lemma StandardKeysOrder(d: Properties, name: string, dataset: string, lat: real, lon: real)
    ensures Keys(WithStandardKeys(d, name, dataset, lat, lon)) == StandardKeyOrder(Keys(d))
  {
    var d1 := Put(d, "name", Str(name));
    var d2 := Put(d1, "dataset", Str(dataset));
    var d3 := Put(d2, "latitude", Num(lat));
    KeysPut(d, "name", Str(name));
    KeysPut(d1, "dataset", Str(dataset));
    KeysPut(d2, "latitude", Num(lat));
    KeysPut(d3, "longitude", Num(lon));
    var standard := ["name", "dataset", "latitude", "longitude"];
    assert standard[1..][1..][1..][1..] == [];
    calc {
      StandardKeyOrder(Keys(d));
      AddKeys(Keys(d1), standard[1..]);
      AddKeys(Keys(d2), standard[1..][1..]);
      AddKeys(Keys(d3), standard[1..][1..][1..]);
      Keys(Put(d3, "longitude", Num(lon)));
    }
  }

  lemma StandardKeysSetValues(d: Properties, name: string, dataset: string, lat: real, lon: real)
    ensures forall k :: !IsStandardKey(k) ==> Get(WithStandardKeys(d, name, dataset, lat, lon), k) == Get(d, k)
    ensures Get(WithStandardKeys(d, name, dataset, lat, lon), "name") == Some(Str(name))
    ensures Get(WithStandardKeys(d, name, dataset, lat, lon), "dataset") == Some(Str(dataset))
    ensures Get(WithStandardKeys(d, name, dataset, lat, lon), "latitude") == Some(Num(lat))
    ensures Get(WithStandardKeys(d, name, dataset, lat, lon), "longitude") == Some(Num(lon))
  {
    StandardKeysDiffer();
    var d1 := Put(d, "name", Str(name));
    var d2 := Put(d1, "dataset", Str(dataset));
    var d3 := Put(d2, "latitude", Num(lat));
    var d4 := Put(d3, "longitude", Num(lon));
    assert d4 == WithStandardKeys(d, name, dataset, lat, lon);
    forall k ensures Get(d4, k) == if k == "longitude" then Some(Num(lon))
                                  else if k == "latitude" then Some(Num(lat))
                                  else if k == "dataset" then Some(Str(dataset))
                                  else if k == "name" then Some(Str(name))
                                  else Get(d, k)
    {
      GetPut(d, "name", Str(name), k);
      GetPut(d1, "dataset", Str(dataset), k);
      GetPut(d2, "latitude", Num(lat), k);
      GetPut(d3, "longitude", Num(lon), k);
    }
  }

  /** The four standard keys are four different strings. */
  lemma StandardKeysDiffer()
    ensures |"name"| == 4 && |"dataset"| == 7 && |"latitude"| == 8 && |"longitude"| == 9
  {
  }

  /** The standard assignments applied to the copied columns give properties
      as the source promises them. */
  lemma FinishProperties(d: Properties, cols: seq<string>, cells: seq<Cell>, index: nat,
                         sel: Selection, lat: real, lon: real)
    requires |cells| == |cols| && Fits(sel, |cols|)
    requires Distinct(Keys(d)) && Keys(d) == CopiedColumns(cols, sel.lat, sel.lon, |cols|)
    requires forall c :: 0 <= c < |cols| && c != sel.lat && c != sel.lon ==>
               Get(d, cols[c]) == Some(CellValue(cells[c]))
    ensures PropertiesOf(WithStandardKeys(d, FeatureName(cells, sel, index), DatasetLabel(cells, sel), lat, lon),
                         cols, cells, index, sel, lat, lon)
    ensures KeysInOrder(WithStandardKeys(d, FeatureName(cells, sel, index), DatasetLabel(cells, sel), lat, lon), cols, sel)
  {
    StandardKeysExtendKeys(d, FeatureName(cells, sel, index), DatasetLabel(cells, sel), lat, lon);
    StandardKeysOrder(d, FeatureName(cells, sel, index), DatasetLabel(cells, sel), lat, lon);
    StandardKeysSetValues(d, FeatureName(cells, sel, index), DatasetLabel(cells, sel), lat, lon);
  }

  /** Feature `f` is the one the source builds for record `rec`: a Point at
      `[lon, lat]` (the position order of section 3.1.1 of RFC 7946) and the
      properties above. */
  ghost predicate Describes(f: Feature, cols: seq<string>, rec: Record, sel: Selection)
  {
    && |rec.cells| == |cols|
    && Fits(sel, |cols|)
    && rec.cells[sel.lat].Number?
    && rec.cells[sel.lon].Number?
    && f.geometry == Point([rec.cells[sel.lon].value, rec.cells[sel.lat].value])
    && PropertiesOf(f.properties, cols, rec.cells, rec.index, sel,
                    rec.cells[sel.lat].value, rec.cells[sel.lon].value)
  }

  lemma FrameCovers(t: Table, lat: nat, lon: nat)
    requires WellFormed(t) && lat < |t.columns| && lon < |t.columns|
    ensures Covers(Frame(t), lat, lon)
  {
    var f := Frame(t);
    forall x | x in f ensures lat < |x.cells| && lon < |x.cells| {
      var i :| 0 <= i < |f| && f[i] == x;
      assert t.rows[i] in t.rows;
    }
  }

  /** The rows that survive cleaning under selection `sel`. */
  function Surviving(t: Table, sel: Selection): seq<Record>
    requires WellFormed(t) && Fits(sel, |t.columns|)
  {
    FrameCovers(t, sel.lat, sel.lon);
    Clean(Frame(t), sel.lat, sel.lon)
  }

  /** `conv` is what the source returns for table `t` under selection `sel`:
      one feature per surviving row, in order, and the removed count. */
  ghost predicate Converted(conv: Conversion, t: Table, sel: Selection)
    requires WellFormed(t) && Fits(sel, |t.columns|)
  {
    var kept := Surviving(t, sel);
    && |conv.collection.features| == |kept|
    && conv.removed + |kept| == |t.rows|
    && (forall k :: 0 <= k < |kept| ==> Describes(conv.collection.features[k], t.columns, kept[k], sel))
    && forall k :: 0 <= k < |kept| ==> KeysInOrder(conv.collection.features[k].properties, t.columns, sel)
  }

  /** Row `i` of the sheet once `pd.to_numeric` has coerced both coordinate
      columns (lines 117-118). */
  function CoercedRow(t: Table, sel: Selection, i: nat): (x: Record)
    requires WellFormed(t) && Fits(sel, |t.columns|) && i < |t.rows|
    ensures x.index == i && |x.cells| == |t.columns|
  {
    assert t.rows[i] in t.rows;
    CoerceRecord(Record(i, t.rows[i]), sel.lat, sel.lon)
  }

  /** The surviving rows are what the reference filter keeps of the frame. */
  lemma SurvivingIsValid(t: Table, sel: Selection)
    requires WellFormed(t) && Fits(sel, |t.columns|)
    ensures Covers(Frame(t), sel.lat, sel.lon)
    ensures Surviving(t, sel) == Valid(Frame(t), sel.lat, sel.lon)
  {
    FrameCovers(t, sel.lat, sel.lon);
    CleanKeepsExactlyValid(Frame(t), sel.lat, sel.lon);
  }

  /** Every row the reference filter keeps is a sheet row with its
      coordinates coerced and in range. */
  lemma SurvivorsAreCoercedRows(t: Table, sel: Selection)
    requires WellFormed(t) && Fits(sel, |t.columns|)
    ensures Covers(Frame(t), sel.lat, sel.lon)
    ensures forall x :: x in Valid(Frame(t), sel.lat, sel.lon) ==>
              x.index < |t.rows| && x == CoercedRow(t, sel, x.index) && InRange(x, sel.lat, sel.lon)
  {
    FrameCovers(t, sel.lat, sel.lon);
    var f := Frame(t);
    ValidMembers(f, sel.lat, sel.lon);
    forall x | x in Valid(f, sel.lat, sel.lon)
      ensures x.index < |t.rows| && x == CoercedRow(t, sel, x.index)
    {
      var y :| y in f && x == CoerceRecord(y, sel.lat, sel.lon);
      var i :| 0 <= i < |f| && f[i] == y;
      assert y == Record(i, t.rows[i]);
    }
  }

  /** The reference filter keeps every sheet row whose coerced coordinates
      are in range. */
  lemma InRangeRowsSurvive(t: Table, sel: Selection)
    requires WellFormed(t) && Fits(sel, |t.columns|)
    ensures Covers(Frame(t), sel.lat, sel.lon)
    ensures forall i :: 0 <= i < |t.rows| && InRange(CoercedRow(t, sel, i), sel.lat, sel.lon) ==>
              CoercedRow(t, sel, i) in Valid(Frame(t), sel.lat, sel.lon)
  {
    FrameCovers(t, sel.lat, sel.lon);
    var f := Frame(t);
    ValidMembers(f, sel.lat, sel.lon);
    forall i | 0 <= i < |t.rows| && InRange(CoercedRow(t, sel, i), sel.lat, sel.lon)
      ensures CoercedRow(t, sel, i) in Valid(f, sel.lat, sel.lon)
    {
      assert f[i] == Record(i, t.rows[i]) && f[i] in f;
    }
  }

  /** The surviving rows are exactly the sheet rows whose coordinates, once
      coerced, are numbers in range; each appears at most once, in row order,
      with its coordinate cells coerced and its other cells unchanged. */
  lemma SurvivingRowsAreTheValidRows(t: Table, sel: Selection)
    requires WellFormed(t) && Fits(sel, |t.columns|)
    ensures |Surviving(t, sel)| <= |t.rows|
    ensures Ascending(Surviving(t, sel))
    ensures forall x :: x in Surviving(t, sel) ==>
              x.index < |t.rows| && x == CoercedRow(t, sel, x.index) && InRange(x, sel.lat, sel.lon)
    ensures forall i :: 0 <= i < |t.rows| ==>
              (CoercedRow(t, sel, i) in Surviving(t, sel) <==> InRange(CoercedRow(t, sel, i), sel.lat, sel.lon))
  {
    SurvivingIsValid(t, sel);
    FrameAscending(t);
    ValidAscending(Frame(t), sel.lat, sel.lon);
    SurvivorsAreCoercedRows(t, sel);
    InRangeRowsSurvive(t, sel);
  }

  /** Every emitted feature lies in [-180, 180] x [-90, 90], carries its
      coordinates in `[lon, lat]` order, and repeats them as its `latitude`
      and `longitude` properties. */
  predicate InBounds(f: Feature)
  {
    && |f.geometry.coordinates| == 2
    && -180.0 <= f.geometry.coordinates[0] <= 180.0
    && -90.0 <= f.geometry.coordinates[1] <= 90.0
    && Get(f.properties, "longitude") == Some(Num(f.geometry.coordinates[0]))
    && Get(f.properties, "latitude") == Some(Num(f.geometry.coordinates[1]))
  }

  /** The feature describing an in-range row lies within bounds. */
  lemma DescribesInBounds(f: Feature, cols: seq<string>, rec: Record, sel: Selection)
    requires Describes(f, cols, rec, sel) && InRange(rec, sel.lat, sel.lon)
    ensures InBounds(f)
  {
  }

  lemma ConvertedFeaturesInBounds(conv: Conversion, t: Table, sel: Selection)
    requires WellFormed(t) && Fits(sel, |t.columns|)
    requires Converted(conv, t, sel)
    ensures forall f :: f in conv.collection.features ==> InBounds(f)
    ensures conv.removed == |t.rows| - |conv.collection.features|
  {
    SurvivingRowsAreTheValidRows(t, sel);
    var kept := Surviving(t, sel);
    var fs := conv.collection.features;
    forall f | f in fs ensures InBounds(f) {
      var k :| 0 <= k < |fs| && fs[k] == f;
      assert kept[k] in kept;
      DescribesInBounds(f, t.columns, kept[k], sel);
    }
  }

  /** The column searches and the interactive fallback of lines 45-106. */
  method ChooseColumns(cols: seq<string>, answer: Option<(int, int)>) returns (sel: Option<Selection>)
    ensures sel == Detect(cols, answer)
    ensures sel.Some? ==> Fits(sel.value, |cols|)
  {
    var lat := FindColumn(cols, IsLatitudeColumn);
    var lon := FindColumn(cols, IsLongitudeColumn);
    if lat.None? || lon.None? {
      if answer.None? {
        return None;
      }
      var a := PyIndex(answer.value.0, |cols|);
      var b := PyIndex(answer.value.1, |cols|);
      if a.None? || b.None? {
        return None;
      }
      lat, lon := a, b;
    }
    var dataset := FindColumn(cols, IsDatasetColumn);
    var name := FindColumn(cols, IsNameColumn);
    sel := Some(Selection(lat.value, lon.value, dataset, name));
  }

  /** One iteration of the loop of lines 142-182: the feature for one surviving row. */
  method RowFeature(cols: seq<string>, rec: Record, sel: Selection) returns (f: Feature)
    requires Distinct(cols) && |rec.cells| == |cols| && Fits(sel, |cols|)
    requires InRange(rec, sel.lat, sel.lon)
    ensures Describes(f, cols, rec, sel)
    ensures KeysInOrder(f.properties, cols, sel)
    ensures InBounds(f)
  {
    var lat := rec.cells[sel.lat].value;
    var lon := rec.cells[sel.lon].value;
    var props := BuildProperties(cols, rec.cells, rec.index, sel, lat, lon);
    f := Feature(Point([lon, lat]), props);
  }

  /** The loop of lines 142-182: one feature per surviving row, appended in order. */
  method EmitFeatures(cols: seq<string>, kept: seq<Record>, sel: Selection) returns (features: seq<Feature>)
    requires Distinct(cols) && Fits(sel, |cols|)
    requires forall x :: x in kept ==> |x.cells| == |cols| && InRange(x, sel.lat, sel.lon)
    ensures |features| == |kept|
    ensures forall k :: 0 <= k < |kept| ==> Describes(features[k], cols, kept[k], sel)
    ensures forall k :: 0 <= k < |kept| ==> KeysInOrder(features[k].properties, cols, sel)
  {
    features := [];
    var i := 0;
    while i < |kept|
      invariant 0 <= i <= |kept|
      invariant |features| == i
      invariant forall k :: 0 <= k < i ==> Describes(features[k], cols, kept[k], sel)
      invariant forall k :: 0 <= k < i ==> KeysInOrder(features[k].properties, cols, sel)
    {
      assert kept[i] in kept;
      var f := RowFeature(cols, kept[i], sel);
      DescribesExtend(features, f, cols, kept, sel);
      features := features + [f];
      i := i + 1;
    }
  }

  /** Appending the feature for the next kept row keeps every earlier
      feature describing its row, with its keys in order. */
  lemma DescribesExtend(fs: seq<Feature>, f: Feature, cols: seq<string>, kept: seq<Record>, sel: Selection)
    requires |fs| < |kept| && sel.lat < |cols| && sel.lon < |cols|
    requires forall k :: 0 <= k < |fs| ==> Describes(fs[k], cols, kept[k], sel)
    requires forall k :: 0 <= k < |fs| ==> KeysInOrder(fs[k].properties, cols, sel)
    requires Describes(f, cols, kept[|fs|], sel) && KeysInOrder(f.properties, cols, sel)
    ensures forall k :: 0 <= k < |fs| + 1 ==> Describes((fs + [f])[k], cols, kept[k], sel)
    ensures forall k :: 0 <= k < |fs| + 1 ==> KeysInOrder((fs + [f])[k].properties, cols, sel)
  {
    forall k | 0 <= k < |fs| + 1
      ensures Describes((fs + [f])[k], cols, kept[k], sel) && KeysInOrder((fs + [f])[k].properties, cols, sel)
    {
      if k < |fs| {
        assert (fs + [f])[k] == fs[k];
      } else {
        assert (fs + [f])[k] == f;
      }
    }
  }


  /** `excel_to_geojson` on an already-read table. `answer` stands for what
      the user types when the coordinate columns are not recognised. */
  method ExcelToGeoJson(t: Table, answer: Option<(int, int)>) returns (result: Option<Conversion>)
    requires WellFormed(t)
    ensures result.None? <==> Detect(t.columns, answer).None?
    ensures result.Some? ==> Converted(result.value, t, Detect(t.columns, answer).value)
    ensures result.Some? ==> forall f :: f in result.value.collection.features ==> InBounds(f)
  {
    var chosen := ChooseColumns(t.columns, answer);
    if chosen.None? {
      return None;
    }
    var sel := chosen.value;
    var kept := Surviving(t, sel);
    SurvivingRowsAreTheValidRows(t, sel);
    var features := EmitFeatures(t.columns, kept, sel);
    var conv := Conversion(FeatureCollection(features), |t.rows| - |kept|);
    ConvertedFeaturesInBounds(conv, t, sel);
    result := Some(conv);
  }
}
