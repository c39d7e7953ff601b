/** `detect_geometry_column` (app.py): find the column of the states table
    that holds geometry as text, GeoJSON-like or WKT. A column is its name
    and its cells in row order; a missing cell is `None`. */
module Geometry {
  import opened Wrappers
  import opened Text

  datatype Column = Column(name: string, cells: seq<Option<string>>)

  datatype GeometryKind = GeoJson | Wkt

  /** The `(col, kind)` pair, or `(None, None)`. */
  datatype Detection = NoGeometry | Found(column: string, kind: GeometryKind)

  /** The number of values `.head(5)` keeps. */
  const SampleSize: nat := 5

  /** `dropna()`: the present values, in row order. */
  function Present(cells: seq<Option<string>>): (r: seq<string>)
    ensures |r| <= |cells|
    ensures forall v :: v in r <==> Some(v) in cells
    ensures forall v :: multiset(r)[v] == multiset(cells)[Some(v)]
  {
    if cells == [] then []
    else
      var rest := Present(cells[1..]);
      assert cells == [cells[0]] + cells[1..];
      assert forall c :: c in cells <==> c == cells[0] || c in cells[1..];
      match cells[0]
      case Some(v) => [v] + rest
      case None => rest
  }

  /** `head(n)`. */
  function Head(s: seq<string>, n: nat): (r: seq<string>)
    ensures |r| == if |s| <= n then |s| else n
    ensures r == s[..|r|]
  {
    if |s| <= n then s else s[..n]
  }

  /** `df[col].dropna().astype(str).head(5)`. */
  function Sample(c: Column): seq<string> {
    Head(Present(c.cells), SampleSize)
  }

  /** `startswith('{') or startswith('[')`. */
  predicate LooksLikeGeoJson(s: string) {
    |s| > 0 && (s[0] == '{' || s[0] == '[')
  }

  /** The regular expression `POINT|POLYGON|MULTIPOLYGON|LINESTRING`
      matches somewhere in `s` (case-sensitive). */
  predicate LooksLikeWkt(s: string) {
    Contains(s, "POINT") || Contains(s, "POLYGON") || Contains(s, "MULTIPOLYGON") || Contains(s, "LINESTRING")
  }

  predicate AnyGeoJson(sample: seq<string>) {
    exists k :: 0 <= k < |sample| && LooksLikeGeoJson(sample[k])
  }

  predicate AnyWkt(sample: seq<string>) {
    exists k :: 0 <= k < |sample| && LooksLikeWkt(sample[k])
  }

  /** What a column's sample says, GeoJSON tested first. */
  function Classify(sample: seq<string>): (r: Option<GeometryKind>)
    ensures r == Some(GeoJson) <==> AnyGeoJson(sample)
    ensures r == Some(Wkt) <==> !AnyGeoJson(sample) && AnyWkt(sample)
    ensures sample == [] ==> r == None
  {
    if sample == [] then None
    else if AnyGeoJson(sample) then Some(GeoJson)
    else if AnyWkt(sample) then Some(Wkt)
    else None
  }

  /** The first column, in declaration order, whose sample classifies. */
  function Detect(columns: seq<Column>): (d: Detection)
    ensures d.Found? ==> exists i :: 0 <= i < |columns| && columns[i].name == d.column && Classify(Sample(columns[i])) == Some(d.kind)
    ensures d.NoGeometry? ==> forall i :: 0 <= i < |columns| ==> Classify(Sample(columns[i])) == None
    decreases |columns|
  {
    if columns == [] then NoGeometry
    else
      match Classify(Sample(columns[0]))
      case Some(kind) => Found(columns[0].name, kind)
      case None => Detect(columns[1..])
  }

  /** The source's loop over the columns, with `continue` and early returns. */
  method DetectGeometryColumn(columns: seq<Column>) returns (d: Detection)
    ensures d == Detect(columns)
  {
    var i := 0;
    while i < |columns|
      invariant 0 <= i <= |columns|
      invariant Detect(columns[i..]) == Detect(columns)
    {
      assert columns[i..][1..] == columns[i + 1..];
      var sample := Sample(columns[i]);
      if sample == [] {
        i := i + 1;
        continue;
      }
      if AnyGeoJson(sample) {
        return Found(columns[i].name, GeoJson);
      }
      if AnyWkt(sample) {
        return Found(columns[i].name, Wkt);
      }
      i := i + 1;
    }
    return NoGeometry;
  }

  /** Column `i` is the first whose sample classifies, and as `kind`. */
  ghost predicate FirstQualifying(columns: seq<Column>, i: int, kind: GeometryKind) {
    0 <= i < |columns| && Classify(Sample(columns[i])) == Some(kind)
    && forall j :: 0 <= j < i ==> Classify(Sample(columns[j])) == None
  }

  /** The detector returns the first qualifying column, with the kind its
      sample shows. */
  lemma {:induction false} DetectFindsFirst(columns: seq<Column>, i: nat, kind: GeometryKind)
    requires FirstQualifying(columns, i, kind)
    ensures Detect(columns) == Found(columns[i].name, kind)
    decreases i
  {
    if i > 0 {
      assert Classify(Sample(columns[0])) == None;
      assert Detect(columns) == Detect(columns[1..]);
      assert forall j :: 0 <= j < i - 1 ==> columns[1..][j] == columns[j + 1];
      assert FirstQualifying(columns[1..], i - 1, kind);
      DetectFindsFirst(columns[1..], i - 1, kind);
    }
  }

  /** The detector answers `(None, None)` exactly when no column's sample
      classifies. */
  lemma {:induction false} DetectNone(columns: seq<Column>)
    ensures Detect(columns) == NoGeometry <==> forall j :: 0 <= j < |columns| ==> Classify(Sample(columns[j])) == None
    decreases |columns|
  {
    if columns != [] {
      DetectNone(columns[1..]);
      assert forall j :: 1 <= j < |columns| ==> columns[1..][j - 1] == columns[j];
    }
  }

  /** Whatever the detector returns is a column of the table, and one whose
      sample classifies. */
  lemma {:induction false} DetectSound(columns: seq<Column>)
    ensures Detect(columns).Found? ==> exists i :: FirstQualifying(columns, i, Detect(columns).kind) && columns[i].name == Detect(columns).column
    decreases |columns|
  {
    if columns != [] && Classify(Sample(columns[0])).None? {
      DetectSound(columns[1..]);
      if Detect(columns).Found? {
        var i :| FirstQualifying(columns[1..], i, Detect(columns).kind) && columns[1..][i].name == Detect(columns).column;
        assert forall j :: 1 <= j <= i ==> columns[1..][j - 1] == columns[j];
        assert FirstQualifying(columns, i + 1, Detect(columns).kind);
      }
    } else if columns != [] {
      assert FirstQualifying(columns, 0, Detect(columns).kind);
    }
  }

  /** A column with no present value is skipped: removing it from the table
      changes nothing. */
  lemma {:induction false} EmptyColumnSkipped(columns: seq<Column>, i: nat)
    requires i < |columns| && Present(columns[i].cells) == []
    ensures Detect(columns[..i] + columns[i + 1..]) == Detect(columns)
    decreases i
  {
    if i == 0 {
      assert columns[..0] + columns[1..] == columns[1..];
    } else {
      assert (columns[..i] + columns[i + 1..])[0] == columns[0];
      assert (columns[..i] + columns[i + 1..])[1..] == columns[1..][..i - 1] + columns[1..][i..];
      EmptyColumnSkipped(columns[1..], i - 1);
    }
  }

  /** Only the first five present values count: cells after the fifth present
      value make no difference to the sample. */
  lemma {:induction false} SampleIgnoresLaterCells(name: string, cells: seq<Option<string>>, more: seq<Option<string>>)
    requires |Present(cells)| >= SampleSize
    ensures Sample(Column(name, cells + more)) == Sample(Column(name, cells))
  {
    PresentAppend(cells, more);
    var p := Present(cells);
    assert (p + Present(more))[..SampleSize] == p[..SampleSize];
  }

  /** `dropna()` keeps row order: it distributes over concatenation. */
  lemma {:induction false} PresentAppend(cells: seq<Option<string>>, more: seq<Option<string>>)
    ensures Present(cells + more) == Present(cells) + Present(more)
    decreases |cells|
  {
    if cells == [] {
      assert cells + more == more;
    } else {
      assert (cells + more)[1..] == cells[1..] + more;
      PresentAppend(cells[1..], more);
    }
  }

  /** Within one column the GeoJSON test comes first: a sample with a value
      starting with `{` is GeoJSON even if another value holds a WKT token. */
  lemma GeoJsonBeforeWkt(sample: seq<string>, a: nat, b: nat)
    requires a < |sample| && b < |sample|
    requires LooksLikeGeoJson(sample[a]) && LooksLikeWkt(sample[b])
    ensures Classify(sample) == Some(GeoJson)
  {
  }

  /** A column whose first present values are `POINT(1 2)` texts is WKT. */
  lemma WktExample(c: Column)
    requires c.cells == [None, Some("POINT(1 2)"), Some("POINT(3 4)")]
    ensures Classify(Sample(c)) == Some(Wkt)
    ensures Detect([c]) == Found(c.name, Wkt)
  {
    PointsPresent(c.cells);
    assert Sample(c)[0] == "POINT(1 2)";
    assert Sample(c)[0][..5] == "POINT";
    assert Contains(Sample(c)[0], "POINT");
  }

  lemma PointsPresent(cells: seq<Option<string>>)
    requires cells == [None, Some("POINT(1 2)"), Some("POINT(3 4)")]
    ensures Present(cells) == ["POINT(1 2)", "POINT(3 4)"]
  {
    var last := cells[2..];
    assert Present(last) == ["POINT(3 4)"] by {
      assert last[1..] == [];
    }
    assert Present(cells[1..]) == ["POINT(1 2)"] + Present(last) by {
      assert cells[1..][1..] == last;
    }
    assert Present(cells) == Present(cells[1..]);
  }
}
