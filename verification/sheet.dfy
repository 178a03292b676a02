/** The spreadsheet as the converter sees it after reading: a header row of
    column names and data rows of cells, and the cleaning steps that drop
    rows whose coordinates are missing, non-numeric or out of range
    (convert_excel_to_geojson.py, lines 114-127). */
module Sheet {
  import opened Dicts

  /** One cell as pandas presents it. `Missing` is an empty cell or NaN.
      `Number` is a numeric cell; `shown` is the text `str()` gives for it.
      `Text` is any other cell, carrying the text `str()` gives for it and
      what `pd.to_numeric` reads from that text: None when it cannot parse
      it, otherwise the number and the text `str()` gives for that number.
      The parse itself is not modelled; `numeric` is given with the cell. */
  datatype Cell = Missing | Number(value: real, shown: string) | Text(text: string, numeric: Option<(real, string)>)

  /** The table read from the workbook: header names and rows of cells. */
  datatype Table = Table(columns: seq<string>, rows: seq<seq<Cell>>)

  /** Headers are distinct and every row has one cell per header. */
  predicate WellFormed(t: Table)
  {
    && Distinct(t.columns)
    && forall r :: r in t.rows ==> |r| == |t.columns|
  }

  /** A data row with its index label. */
  datatype Record = Record(index: nat, cells: seq<Cell>)

  /** The frame pandas builds: each row labelled with its position. */
  function Frame(t: Table): (f: seq<Record>)
    ensures |f| == |t.rows|
    ensures forall i :: 0 <= i < |f| ==> f[i] == Record(i, t.rows[i])
  {
    seq(|t.rows|, i requires 0 <= i < |t.rows| => Record(i, t.rows[i]))
  }

  /** Labels strictly increase along the frame, i.e. it is in row order. */
  predicate Ascending(f: seq<Record>)
  {
    forall i, j :: 0 <= i < j < |f| ==> f[i].index < f[j].index
  }

  lemma FrameAscending(t: Table)
    ensures Ascending(Frame(t))
  {
  }

  /** Every record has cells at both coordinate positions. */
  predicate Covers(f: seq<Record>, lat: nat, lon: nat)
  {
    forall r :: r in f ==> lat < |r.cells| && lon < |r.cells|
  }

  /** `dropna(subset=[lat_col, lon_col])`. */
  function DropMissing(f: seq<Record>, lat: nat, lon: nat): (r: seq<Record>)
    requires Covers(f, lat, lon)
    ensures Covers(r, lat, lon)
  {
    if f == [] then []
    else
      var head := if f[0].cells[lat].Missing? || f[0].cells[lon].Missing? then [] else [f[0]];
      head + DropMissing(f[1..], lat, lon)
  }

  /** `dropna` keeps a record exactly when it is an input record whose two
      coordinate cells are both present. */
  lemma {:induction false} DropMissingMembers(f: seq<Record>, lat: nat, lon: nat)
    requires Covers(f, lat, lon)
    ensures forall x :: x in DropMissing(f, lat, lon) <==> x in f && !x.cells[lat].Missing? && !x.cells[lon].Missing?
  {
    if f != [] {
      CoversTail(f, lat, lon);
      DropMissingMembers(f[1..], lat, lon);
      assert f == [f[0]] + f[1..];
    }
  }

  /** `pd.to_numeric(..., errors='coerce')` on one cell: numbers stay, text
      that parses becomes its number, and everything else becomes NaN. */
  function Coerce(c: Cell): (r: Cell)
    ensures r.Missing? || r.Number?
    ensures r.Number? <==> c.Number? || (c.Text? && c.numeric.Some?)
    ensures c.Number? ==> r == c
    ensures c.Text? && c.numeric.Some? ==> r == Number(c.numeric.value.0, c.numeric.value.1)
  {
    match c
    case Text(_, numeric) => if numeric.Some? then Number(numeric.value.0, numeric.value.1) else Missing
    case _ => c
  }

  /** Coercing an already coerced cell changes nothing. */
  lemma CoerceIdempotent(c: Cell)
    ensures Coerce(Coerce(c)) == Coerce(c)
  {
  }

  /** A record after both coordinate columns went through `pd.to_numeric`:
      the coordinate cells are coerced and every other cell is untouched. */
  function CoerceRecord(x: Record, lat: nat, lon: nat): (y: Record)
    requires lat < |x.cells| && lon < |x.cells|
    ensures y.index == x.index && |y.cells| == |x.cells|
    ensures y.cells[lat] == Coerce(x.cells[lat]) && y.cells[lon] == Coerce(x.cells[lon])
    ensures forall j :: 0 <= j < |x.cells| && j != lat && j != lon ==> y.cells[j] == x.cells[j]
  {
    var once := x.cells[lat := Coerce(x.cells[lat])];
    x.(cells := once[lon := Coerce(once[lon])])
  }

  /** `df[col] = pd.to_numeric(df[col], errors='coerce')`. */
  function ToNumeric(f: seq<Record>, col: nat): (r: seq<Record>)
    requires forall x :: x in f ==> col < |x.cells|
    ensures |r| == |f|
    ensures forall i :: 0 <= i < |f| ==> r[i].index == f[i].index && |r[i].cells| == |f[i].cells|
  {
    if f == [] then []
    else [f[0].(cells := f[0].cells[col := Coerce(f[0].cells[col])])] + ToNumeric(f[1..], col)
  }

  /** Coercing a column replaces that cell of each record by its coerced
      form and leaves the rest of the record as it was. */
  lemma {:induction false} ToNumericCells(f: seq<Record>, col: nat)
    requires forall x :: x in f ==> col < |x.cells|
    ensures forall i :: 0 <= i < |f| ==> ToNumeric(f, col)[i] == f[i].(cells := f[i].cells[col := Coerce(f[i].cells[col])])
  {
    if f != [] {
      ToNumericCells(f[1..], col);
      forall i | 0 <= i < |f|
        ensures ToNumeric(f, col)[i] == f[i].(cells := f[i].cells[col := Coerce(f[i].cells[col])])
      {
        if i > 0 {
          assert f[1..][i - 1] == f[i];
        }
      }
    }
  }

  predicate Within(c: Cell, low: real, high: real)
  {
    c.Number? && low <= c.value <= high
  }

  /** The coordinates of a record are numbers inside the inclusive ranges
      [-90, 90] for latitude and [-180, 180] for longitude. */
  predicate InRange(x: Record, lat: nat, lon: nat)
    requires lat < |x.cells| && lon < |x.cells|
  {
    Within(x.cells[lat], -90.0, 90.0) && Within(x.cells[lon], -180.0, 180.0)
  }

  /** The boolean mask of lines 124-127; NaN compares false, so it drops NaN too. */
  function RangeFilter(f: seq<Record>, lat: nat, lon: nat): (r: seq<Record>)
    requires Covers(f, lat, lon)
  {
    if f == [] then []
    else (if InRange(f[0], lat, lon) then [f[0]] else []) + RangeFilter(f[1..], lat, lon)
  }

  /** The cleaning of lines 114-127, step by step as the source performs it. */
  function Clean(f: seq<Record>, lat: nat, lon: nat): seq<Record>
    requires Covers(f, lat, lon)
  {
    var dropped := DropMissing(f, lat, lon);
    var numeric := ToNumeric(ToNumeric(dropped, lat), lon);
    RangeFilter(DropMissing(numeric, lat, lon), lat, lon)
  }

  /** Reference definition in one pass: coerce each record's coordinates
      and keep it exactly when they are then numbers in range. */
  function Valid(f: seq<Record>, lat: nat, lon: nat): (r: seq<Record>)
    requires Covers(f, lat, lon)
    ensures |r| <= |f|
    ensures Covers(r, lat, lon)
  {
    if f == [] then []
    else
      var rest := Valid(f[1..], lat, lon);
      var y := CoerceRecord(f[0], lat, lon);
      if InRange(y, lat, lon) then [y] + rest else rest
  }

  /** The coerced form of a record is selected exactly when it is in range,
      and every selected record is the coerced form of an input record. */
  lemma {:induction false} ValidMembers(f: seq<Record>, lat: nat, lon: nat)
    requires Covers(f, lat, lon)
    ensures forall y :: y in f && InRange(CoerceRecord(y, lat, lon), lat, lon) ==>
              CoerceRecord(y, lat, lon) in Valid(f, lat, lon)
    ensures forall x :: x in Valid(f, lat, lon) ==>
              InRange(x, lat, lon) && exists y :: y in f && x == CoerceRecord(y, lat, lon)
  {
    if f != [] {
      ValidMembers(f[1..], lat, lon);
      assert f == [f[0]] + f[1..];
      var rest := Valid(f[1..], lat, lon);
      forall x | x in Valid(f, lat, lon)
        ensures InRange(x, lat, lon) && exists y :: y in f && x == CoerceRecord(y, lat, lon)
      {
        if x !in rest {
          assert x == CoerceRecord(f[0], lat, lon);
        }
      }
    }
  }

  /** Selected records carry labels of input records, so a lower bound on
      the input labels bounds the selected ones. */
  lemma {:induction false} ValidAbove(f: seq<Record>, lat: nat, lon: nat, bound: int)
    requires Covers(f, lat, lon)
    requires forall i :: 0 <= i < |f| ==> bound < f[i].index
    ensures forall x :: x in Valid(f, lat, lon) ==> bound < x.index
  {
    if f != [] {
      ValidAbove(f[1..], lat, lon, bound);
    }
  }

  /** Selecting records keeps their relative order. */
  lemma {:induction false} ValidAscending(f: seq<Record>, lat: nat, lon: nat)
    requires Covers(f, lat, lon) && Ascending(f)
    ensures Ascending(Valid(f, lat, lon))
  {
    if f != [] {
      var tail := f[1..];
      assert Ascending(tail) by {
        forall i, j | 0 <= i < j < |tail| ensures tail[i].index < tail[j].index {
          assert tail[i] == f[i + 1] && tail[j] == f[j + 1];
        }
      }
      ValidAscending(tail, lat, lon);
      assert forall i :: 0 <= i < |tail| ==> tail[i] == f[i + 1];
      ValidAbove(tail, lat, lon, f[0].index);
      var rest := Valid(tail, lat, lon);
      var head := CoerceRecord(f[0], lat, lon);
      if InRange(head, lat, lon) {
        var r := [head] + rest;
        forall i, j | 0 <= i < j < |r| ensures r[i].index < r[j].index {
          assert r[j] == rest[j - 1] && rest[j - 1] in rest;
          if i > 0 {
            assert r[i] == rest[i - 1];
          }
        }
      }
    }
  }

  /** The records after the first still have both coordinate cells. */
  lemma CoversTail(f: seq<Record>, lat: nat, lon: nat)
    requires f != [] && Covers(f, lat, lon)
    ensures Covers(f[1..], lat, lon)
  {
    forall x | x in f[1..] ensures lat < |x.cells| && lon < |x.cells| {
      assert x in f;
    }
  }

  lemma {:induction false} DropMissingAppend(a: seq<Record>, b: seq<Record>, lat: nat, lon: nat)
    requires Covers(a, lat, lon) && Covers(b, lat, lon)
    ensures DropMissing(a + b, lat, lon) == DropMissing(a, lat, lon) + DropMissing(b, lat, lon)
  {
    if a == [] {
      assert a + b == b;
    } else {
      CoversTail(a, lat, lon);
      assert (a + b)[1..] == a[1..] + b;
      DropMissingAppend(a[1..], b, lat, lon);
    }
  }

  lemma {:induction false} ToNumericAppend(a: seq<Record>, b: seq<Record>, col: nat)
    requires forall x :: x in a ==> col < |x.cells|
    requires forall x :: x in b ==> col < |x.cells|
    ensures ToNumeric(a + b, col) == ToNumeric(a, col) + ToNumeric(b, col)
  {
    if a == [] {
      assert a + b == b;
    } else {
      assert (a + b)[1..] == a[1..] + b;
      ToNumericAppend(a[1..], b, col);
    }
  }

  lemma {:induction false} RangeFilterAppend(a: seq<Record>, b: seq<Record>, lat: nat, lon: nat)
    requires Covers(a, lat, lon) && Covers(b, lat, lon)
    ensures RangeFilter(a + b, lat, lon) == RangeFilter(a, lat, lon) + RangeFilter(b, lat, lon)
  {
    if a == [] {
      assert a + b == b;
    } else {
      CoversTail(a, lat, lon);
      assert (a + b)[1..] == a[1..] + b;
      RangeFilterAppend(a[1..], b, lat, lon);
    }
  }

  /** Cleaning a single record keeps its coerced form when the coerced
      coordinates are in range, and drops it otherwise. */
  lemma CleanOne(x: Record, lat: nat, lon: nat)
    requires lat < |x.cells| && lon < |x.cells|
    ensures Clean([x], lat, lon) ==
            if InRange(CoerceRecord(x, lat, lon), lat, lon) then [CoerceRecord(x, lat, lon)] else []
  {
    var d := DropMissing([x], lat, lon);
    var y := CoerceRecord(x, lat, lon);
    assert DropMissing([x][1..], lat, lon) == [];
    if d != [] {
      assert d == [x];
      var once := x.(cells := x.cells[lat := Coerce(x.cells[lat])]);
      assert ToNumeric([x], lat) == [once];
      assert ToNumeric([once], lon) == [y];
      assert DropMissing([y][1..], lat, lon) == [];
      assert RangeFilter([y][1..], lat, lon) == [];
      if y.cells[lat].Missing? || y.cells[lon].Missing? {
        assert DropMissing([y], lat, lon) == [];
      } else {
        assert DropMissing([y], lat, lon) == [y];
      }
    } else {
      assert !InRange(y, lat, lon);
    }
  }

  lemma ToNumericCovers(f: seq<Record>, col: nat, lat: nat, lon: nat)
    requires Covers(f, lat, lon) && (col == lat || col == lon)
    ensures Covers(ToNumeric(f, col), lat, lon)
  {
    var r := ToNumeric(f, col);
    forall x | x in r ensures lat < |x.cells| && lon < |x.cells| {
      var i :| 0 <= i < |r| && r[i] == x;
      assert f[i] in f;
    }
  }

  /** Cleaning works row by row: it distributes over concatenation. */
  lemma CleanAppend(a: seq<Record>, b: seq<Record>, lat: nat, lon: nat)
    requires Covers(a, lat, lon) && Covers(b, lat, lon)
    ensures Covers(a + b, lat, lon)
    ensures Clean(a + b, lat, lon) == Clean(a, lat, lon) + Clean(b, lat, lon)
  {
    DropMissingAppend(a, b, lat, lon);
    var d1, d2 := DropMissing(a, lat, lon), DropMissing(b, lat, lon);
    ToNumericAppend(d1, d2, lat);
    var n1, n2 := ToNumeric(d1, lat), ToNumeric(d2, lat);
    ToNumericCovers(d1, lat, lat, lon);
    ToNumericCovers(d2, lat, lat, lon);
    ToNumericAppend(n1, n2, lon);
    var m1, m2 := ToNumeric(n1, lon), ToNumeric(n2, lon);
    ToNumericCovers(n1, lon, lat, lon);
    ToNumericCovers(n2, lon, lat, lon);
    DropMissingAppend(m1, m2, lat, lon);
    RangeFilterAppend(DropMissing(m1, lat, lon), DropMissing(m2, lat, lon), lat, lon);
  }

  /** The four cleaning steps together (drop missing, coerce both columns,
      drop what failed to parse, range mask) keep, in their order, exactly
      the records whose coerced coordinates are in range, with those cells
      coerced and every other cell unchanged. The first drop is redundant:
      the later drop and the mask would remove those records anyway. */
  lemma {:induction false} CleanKeepsExactlyValid(f: seq<Record>, lat: nat, lon: nat)
    requires Covers(f, lat, lon)
    ensures Clean(f, lat, lon) == Valid(f, lat, lon)
  {
    if f != [] {
      assert f == [f[0]] + f[1..];
      CleanAppend([f[0]], f[1..], lat, lon);
      CleanOne(f[0], lat, lon);
      CleanKeepsExactlyValid(f[1..], lat, lon);
    }
  }

  /** A latitude typed as the text "33.5" is parsed, kept, and stored as
      the number 33.5; text that does not parse loses its row. */
  lemma NumericTextIsKept()
    ensures Clean([Record(0, [Text("33.5", Some((33.5, "33.5"))), Number(-117.25, "-117.25")])], 0, 1)
            == [Record(0, [Number(33.5, "33.5"), Number(-117.25, "-117.25")])]
    ensures Clean([Record(0, [Text("N/A", None), Number(-117.25, "-117.25")])], 0, 1) == []
  {
    var lon := Number(-117.25, "-117.25");
    var parsed := Record(0, [Text("33.5", Some((33.5, "33.5"))), lon]);
    var kept := Record(0, [Number(33.5, "33.5"), lon]);
    assert CoerceRecord(parsed, 0, 1).cells == kept.cells;
    assert InRange(kept, 0, 1);
    CleanOne(parsed, 0, 1);
    var unparsed := Record(0, [Text("N/A", None), lon]);
    assert CoerceRecord(unparsed, 0, 1).cells[0] == Missing;
    CleanOne(unparsed, 0, 1);
  }
}
