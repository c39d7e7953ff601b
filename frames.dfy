/** The start-up of the script (app.py, lines 136-170): resolve the columns it
    needs in the three uploaded tables, stop when a municipality column is
    missing, and add the normalised key columns `__mun_norm` and
    `__state_norm` to the tables in place. */
module Frames {
  import opened Wrappers
  import opened Text
  import opened Names
  import opened Columns
  import opened Geometry

  const MunicipalityCandidates: seq<string> := ["municipio", "nome_municipio", "city", "nome"]
  const StateCandidates: seq<string> := ["estado", "nome_estado", "state"]
  const StateNameCandidates: seq<string> := ["estado", "nome_estado", "state", "nome"]
  const LatCandidates: seq<string> := ["lat", "latitude", "y"]
  const LonCandidates: seq<string> := ["lon", "longitude", "lng", "x"]

  const MunKey: string := "__mun_norm"
  const StateKey: string := "__state_norm"

  /** Python's truth value of a resolved column: `None` and `""` are false. */
  predicate Truthy(col: Option<string>) {
    col.Some? && col.value != ""
  }

  /** The columns the script works with, as resolved from the headers. */
  datatype Resolved = Resolved(
    munCol: string, stateCol: Option<string>, latCol: Option<string>, lonCol: Option<string>,
    wellsMunCol: string, wellsLat: Option<string>, wellsLon: Option<string>,
    stateNameCol: Option<string>, geometry: Detection, stateLat: Option<string>, stateLon: Option<string>)

  /** The two fatal start-up errors (lines 143-145 and 152-154). */
  datatype SetupError = NoCityMunicipalityColumn | NoWellsMunicipalityColumn

  function ColumnNames(columns: seq<Column>): (r: seq<string>)
    ensures |r| == |columns| && forall i :: 0 <= i < |columns| ==> r[i] == columns[i].name
  {
    seq(|columns|, i requires 0 <= i < |columns| => columns[i].name)
  }

  /** Lines 138-160: the cities header is resolved first and the script stops
      if it has no municipality column; then the wells header, with the same
      stop; then the states table's name column, geometry and centroid. */
  function ResolveColumns(cities: seq<string>, wells: seq<string>, states: seq<Column>): (r: Result<Resolved, SetupError>)
    ensures r == Failure(NoCityMunicipalityColumn) <==> FindColumn(cities, MunicipalityCandidates).None?
    ensures r == Failure(NoWellsMunicipalityColumn) <==>
      FindColumn(cities, MunicipalityCandidates).Some? && FindColumn(wells, MunicipalityCandidates).None?
    ensures r.Success? ==>
      && r.value.munCol in cities && r.value.wellsMunCol in wells
      && (r.value.stateCol.Some? ==> r.value.stateCol.value in cities)
      && (r.value.stateNameCol.Some? ==> r.value.stateNameCol.value in ColumnNames(states))
      && r.value.geometry == Detect(states)
    ensures r.Success? ==>
      && r.value.munCol == FindColumn(cities, MunicipalityCandidates).value
      && r.value.stateCol == FindColumn(cities, StateCandidates)
      && r.value.latCol == FindColumn(cities, LatCandidates)
      && r.value.lonCol == FindColumn(cities, LonCandidates)
      && r.value.wellsMunCol == FindColumn(wells, MunicipalityCandidates).value
      && r.value.wellsLat == FindColumn(wells, LatCandidates)
      && r.value.wellsLon == FindColumn(wells, LonCandidates)
      && r.value.stateNameCol == FindColumn(ColumnNames(states), StateNameCandidates)
      && r.value.stateLat == FindColumn(ColumnNames(states), LatCandidates)
      && r.value.stateLon == FindColumn(ColumnNames(states), LonCandidates)
  {
    var munCol := FindColumn(cities, MunicipalityCandidates);
    if munCol.None? then Failure(NoCityMunicipalityColumn)
    else
      var wellsMunCol := FindColumn(wells, MunicipalityCandidates);
      if wellsMunCol.None? then Failure(NoWellsMunicipalityColumn)
      else
        var header := ColumnNames(states);
        Success(Resolved(
          munCol.value, FindColumn(cities, StateCandidates),
          FindColumn(cities, LatCandidates), FindColumn(cities, LonCandidates),
          wellsMunCol.value, FindColumn(wells, LatCandidates), FindColumn(wells, LonCandidates),
          FindColumn(header, StateNameCandidates), Detect(states),
          FindColumn(header, LatCandidates), FindColumn(header, LonCandidates)))
  }

  /** With non-empty candidates `find_column` never returns the empty name,
      so the truth tests `if state_col:` and `if est_name_col:` are the same
      as "a column was found". */
  lemma {:induction false} FoundColumnNonEmpty(header: seq<string>, candidates: seq<string>)
    requires forall i :: 0 <= i < |candidates| ==> candidates[i] != ""
    ensures Truthy(FindColumn(header, candidates)) <==> FindColumn(header, candidates).Some?
  {
    ExactPassNonEmpty(header, candidates);
    SubstringPassNonEmpty(header, candidates);
  }

  lemma {:induction false} ExactPassNonEmpty(header: seq<string>, candidates: seq<string>)
    requires forall i :: 0 <= i < |candidates| ==> candidates[i] != ""
    ensures ExactPass(header, candidates) != Some("")
    decreases |candidates|
  {
    if candidates != [] {
      assert forall i :: 1 <= i < |candidates| ==> candidates[1..][i - 1] == candidates[i];
      ExactPassNonEmpty(header, candidates[1..]);
    }
  }

  lemma {:induction false} SubstringPassNonEmpty(header: seq<string>, candidates: seq<string>)
    requires forall i :: 0 <= i < |candidates| ==> candidates[i] != ""
    ensures SubstringPass(header, candidates) != Some("")
    decreases |candidates|
  {
    if candidates != [] {
      if FirstContaining(KeyOrder(header), LowerStr(candidates[0])).None? {
        assert forall i :: 1 <= i < |candidates| ==> candidates[1..][i - 1] == candidates[i];
        SubstringPassNonEmpty(header, candidates[1..]);
      }
    }
  }

  /** `df[col].astype(str).apply(normalize_name)`: the text of each cell,
      normalised. */
  function KeyColumn(cells: seq<Option<string>>): (keys: seq<string>)
    ensures |keys| == |cells|
    ensures forall i :: 0 <= i < |cells| && cells[i].Some? ==> keys[i] == Normalize(cells[i])
  {
    seq(|cells|, i requires 0 <= i < |cells| => Normalize(Some(AsText(cells[i]))))
  }

  /** Every key is already normal: normalising it again gives it back. */
  lemma KeysAreNormal(cells: seq<Option<string>>, i: nat)
    requires i < |cells|
    ensures Normalize(Some(KeyColumn(cells)[i])) == KeyColumn(cells)[i]
  {
    NormalizeIdempotent(Some(AsText(cells[i])));
  }

  /** Because the text conversion comes first, a missing cell is keyed
      `nan`, not the empty string that `normalize_name` gives a missing
      value: the `pd.isna` branch is never taken for these columns. */
  lemma MissingCellKey(cells: seq<Option<string>>, i: nat)
    requires i < |cells| && cells[i] == None
    ensures KeyColumn(cells)[i] == "nan"
  {
    NanIsNormal(AsText(cells[i]));
  }

  lemma NanIsNormal(t: string)
    requires t == "nan"
    ensures Normalize(Some(t)) == t
  {
    assert !IsSpace(t[0]) && !IsSpace(t[|t| - 1]);
    StripStripped(t);
    NormalizeIsKeyOfStripped(t);
    var k := MapChars(KeyChar, t);
    assert k[0] == 'n' && k[1] == 'a' && k[2] == 'n';
  }

  /** The cells of a table after `df[target] = <keys of df[source]>`: the
      target column is added, or replaced when it exists. */
  function AddKey(cells: map<string, seq<Option<string>>>, source: string, target: string): (r: map<string, seq<Option<string>>>)
    requires source in cells
    ensures r.Keys == cells.Keys + {target}
    ensures forall c :: c in cells && c != target ==> r[c] == cells[c]
    ensures |r[target]| == |cells[source]|
    ensures forall i :: 0 <= i < |cells[source]| ==> r[target][i] == Some(KeyColumn(cells[source])[i])
  {
    cells[target := seq(|cells[source]|, i requires 0 <= i < |cells[source]| => Some(KeyColumn(cells[source])[i]))]
  }

  /** The header after the same assignment: a new column goes last. */
  function AddName(header: seq<string>, target: string): (r: seq<string>)
    ensures target in r && forall c :: c in header ==> c in r
    ensures |r| == |header| + (if target in header then 0 else 1)
    ensures r[..|header|] == header
  {
    if target in header then header else header + [target]
  }

  /** A pandas table: column names in order, each column's cells, and the
      number of rows. */
  class Frame {
    var header: seq<string>
    var cells: map<string, seq<Option<string>>>
    var height: nat

    ghost predicate Valid()
      reads this
    {
      && (forall c :: c in cells <==> c in header)
      && (forall c :: c in cells ==> |cells[c]| == height)
      && (forall a, b :: 0 <= a < b < |header| ==> header[a] != header[b])
    }

    constructor (header: seq<string>, cells: map<string, seq<Option<string>>>, height: nat)
      requires forall c :: c in cells <==> c in header
      requires forall c :: c in cells ==> |cells[c]| == height
      requires forall a, b :: 0 <= a < b < |header| ==> header[a] != header[b]
      ensures Valid()
      ensures this.header == header && this.cells == cells && this.height == height
    {
      this.header := header;
      this.cells := cells;
      this.height := height;
    }

    /** `df[target] = df[source].astype(str).apply(normalize_name)`. */
    method AddKeyColumn(source: string, target: string)
      requires Valid() && source in cells
      modifies this
      ensures Valid()
      ensures height == old(height)
      ensures cells == AddKey(old(cells), source, target)
      ensures header == AddName(old(header), target)
    {
      var keys := KeyColumn(cells[source]);
      var column := seq(|keys|, i requires 0 <= i < |keys| => Some(keys[i]));
      if target !in header {
        header := header + [target];
      }
      cells := cells[target := column];
    }
  }

  /** Lines 163-170: the municipality key of the cities and the wells tables,
      the state key of the cities table when it has a state column, and the
      state key of the states table when it has a name column. */
  method PrepareKeys(cities: Frame, wells: Frame, states: Frame, cols: Resolved)
    requires cities != wells && cities != states && wells != states
    requires cities.Valid() && wells.Valid() && states.Valid()
    requires cols.munCol in cities.cells && cols.wellsMunCol in wells.cells
    requires cols.stateCol.Some? ==> cols.stateCol.value in cities.cells
    requires cols.stateNameCol.Some? ==> cols.stateNameCol.value in states.cells
    modifies cities, wells, states
    ensures cities.Valid() && wells.Valid() && states.Valid()
    ensures wells.cells == AddKey(old(wells.cells), cols.wellsMunCol, MunKey)
    ensures wells.header == AddName(old(wells.header), MunKey)
    ensures var withMun := AddKey(old(cities.cells), cols.munCol, MunKey);
      cities.cells == if Truthy(cols.stateCol) then AddKey(withMun, cols.stateCol.value, StateKey) else withMun
    ensures var withMun := AddName(old(cities.header), MunKey);
      cities.header == if Truthy(cols.stateCol) then AddName(withMun, StateKey) else withMun
    ensures states.cells == if Truthy(cols.stateNameCol) then AddKey(old(states.cells), cols.stateNameCol.value, StateKey) else old(states.cells)
    ensures states.header == if Truthy(cols.stateNameCol) then AddName(old(states.header), StateKey) else old(states.header)
    ensures StateKey in cities.cells <==> Truthy(cols.stateCol) || StateKey in old(cities.cells)
  {
    cities.AddKeyColumn(cols.munCol, MunKey);
    wells.AddKeyColumn(cols.wellsMunCol, MunKey);
    if Truthy(cols.stateCol) {
      cities.AddKeyColumn(cols.stateCol.value, StateKey);
    }
    if Truthy(cols.stateNameCol) {
      states.AddKeyColumn(cols.stateNameCol.value, StateKey);
    }
  }
}
