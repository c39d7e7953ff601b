/** The query handling of app.py (lines 217-311) and the column selection of
    `show_table_and_download` (line 201). Tables are given with their key
    columns already added; `well_count` and the presence of a municipality's
    coordinates are given per row, since the code that computes them is not
    part of this model. */
module Lookup {
  import opened Wrappers
  import opened Text
  import opened Names

  /** A row of the merged cities table: the municipality name cell, the keys
      `__mun_norm` and `__state_norm`, `well_count`, and whether both
      `__lat` and `__lon` are present and not NaN. */
  datatype City = City(name: Option<string>, munKey: string, stateKey: string, wellCount: nat, hasCoords: bool)

  /** The merged cities table; `hasStateKey` says whether it has a
      `__state_norm` column at all. */
  datatype Cities = Cities(rows: seq<City>, hasStateKey: bool)

  /** A row of the states table: its name cell and its `__state_norm` key. */
  datatype StateRow = StateRow(name: Option<string>, key: string)

  datatype States = States(rows: seq<StateRow>, hasKey: bool)

  /** A row of the wells table: its `__mun_norm` key and its cells. */
  datatype Well = Well(munKey: string, cells: seq<Option<string>>)

  /** The wells table; `hasCoordColumns` says whether both its latitude and
      longitude columns were resolved (`if pocos_lat and pocos_lon`). */
  datatype Wells = Wells(header: seq<string>, rows: seq<Well>, hasCoordColumns: bool)

  /** What `show_table_and_download` shows: nothing for an empty selection,
      otherwise the renamed columns and the selected rows. */
  datatype Detail = NoDetails | Details(columns: seq<string>, rows: seq<Well>)

  /** The municipality branch: without coordinates only a summary; with them
      the map and the detail table. */
  datatype MunicipalityView = SummaryOnly | WithMap(detail: Detail)

  datatype Outcome =
    | NoQuery
    | MunicipalityFound(city: City, view: MunicipalityView)
    | StateFound(state: StateRow, cities: seq<City>, detail: Detail)
    | NotFound

  /** `a` is `b` with some elements left out, order kept. */
  ghost predicate IsSubsequence<T>(a: seq<T>, b: seq<T>)
    decreases |b|
  {
    a == [] || (b != [] && ((a[0] == b[0] && IsSubsequence(a[1..], b[1..])) || IsSubsequence(a, b[1..])))
  }

  /** Boolean-mask selection `df[mask]`: the rows that satisfy `p`, in order. */
  function Filter<T(!new)>(p: T -> bool, s: seq<T>): (r: seq<T>)
    ensures |r| <= |s|
    ensures forall x :: x in r <==> x in s && p(x)
    ensures IsSubsequence(r, s)
    ensures forall x :: multiset(r)[x] == if p(x) then multiset(s)[x] else 0
    decreases |s|
  {
    if s == [] then []
    else
      var rest := Filter(p, s[1..]);
      assert s == [s[0]] + s[1..];
      assert forall x :: x in s <==> x == s[0] || x in s[1..];
      if p(s[0]) then
        assert ([s[0]] + rest)[1..] == rest;
        [s[0]] + rest
      else rest
  }

  /** The first selected row (`iloc[0]`) is the first row that satisfies `p`. */
  lemma {:induction false} FilterFirst<T(!new)>(p: T -> bool, s: seq<T>, i: nat)
    requires i < |s| && p(s[i])
    requires forall j :: 0 <= j < i ==> !p(s[j])
    ensures |Filter(p, s)| > 0 && Filter(p, s)[0] == s[i]
    decreases i
  {
    if i > 0 {
      assert forall j :: 0 <= j < i - 1 ==> s[1..][j] == s[j + 1];
      FilterFirst(p, s[1..], i - 1);
    }
  }

  /** The first selected row is the first row that satisfies `p`, whichever
      it is. */
  lemma {:induction false} FilterHead<T(!new)>(p: T -> bool, s: seq<T>) returns (i: nat)
    requires |Filter(p, s)| > 0
    ensures i < |s| && Filter(p, s)[0] == s[i] && p(s[i])
    ensures forall j :: 0 <= j < i ==> !p(s[j])
    decreases |s|
  {
    if p(s[0]) {
      assert Filter(p, s) == [s[0]] + Filter(p, s[1..]);
      i := 0;
    } else {
      assert Filter(p, s) == Filter(p, s[1..]);
      var k := FilterHead(p, s[1..]);
      i := k + 1;
      assert s[i] == s[1..][k];
      forall j | 0 <= j < i
        ensures !p(s[j])
      {
        if j > 0 {
          assert s[j] == s[1..][j - 1];
        }
      }
    }
  }

  /** Selecting with `t` and then with `p` is selecting once with a mask
      that holds where both do. */
  lemma {:induction false} FilterCompose<T(!new)>(p: T -> bool, t: T -> bool, u: T -> bool, s: seq<T>)
    requires forall x :: x in s ==> u(x) == (t(x) && p(x))
    ensures Filter(p, Filter(t, s)) == Filter(u, s)
    decreases |s|
  {
    if s != [] {
      assert forall x :: x in s[1..] ==> x in s;
      FilterCompose(p, t, u, s[1..]);
      var rest := Filter(t, s[1..]);
      if t(s[0]) {
        assert ([s[0]] + rest)[1..] == rest;
      }
    }
  }

  /** A mask that holds everywhere selects every row. */
  lemma {:induction false} FilterAll<T(!new)>(p: T -> bool, s: seq<T>)
    requires forall j :: 0 <= j < |s| ==> p(s[j])
    ensures Filter(p, s) == s
    decreases |s|
  {
    if s != [] {
      assert forall j :: 0 <= j < |s| - 1 ==> s[1..][j] == s[j + 1];
      FilterAll(p, s[1..]);
    }
  }

  /** `cols_to_show`. */
  const ShownCandidates: seq<string> := [
    "NUMERO_EDOC", "NOME_SOLICITANTE", "POCOS_DEMANDADOS", "POCOS_AUTORIZADOS",
    "ORDEM_EXECUCAO_DATA", "NUMERO_CONTRATADO", "EMPRESA_CONTRATADA"]

  /** `cols_pretty_names`; `rename` leaves any other name as it is. */
  function PrettyName(c: string): string {
    match c
    case "NUMERO_EDOC" => "Número EDOC"
    case "NOME_SOLICITANTE" => "Nome Solicitante"
    case "POCOS_DEMANDADOS" => "Poços Demandados"
    case "POCOS_AUTORIZADOS" => "Poços Autorizados"
    case "ORDEM_EXECUCAO_DATA" => "Data da Execução"
    case "NUMERO_CONTRATADO" => "Número Contratado"
    case "EMPRESA_CONTRATADA" => "Empresa Contratada"
    case _ => c
  }

  /** Line 201: the members of `cols_to_show` that the table has, in the order
      of `cols_to_show`. */
  function ShownColumns(header: seq<string>): (r: seq<string>)
    ensures forall c :: c in r <==> c in ShownCandidates && c in header
    ensures IsSubsequence(r, ShownCandidates)
  {
    Filter((c: string) => c in header, ShownCandidates)
  }

  /** `show_table_and_download` on a selection of wells. */
  function ShowTable(wells: Wells, selected: seq<Well>): (d: Detail)
    ensures d == NoDetails <==> selected == []
    ensures d.Details? ==> d.rows == selected && |d.columns| == |ShownColumns(wells.header)|
    ensures d.Details? ==> forall i :: 0 <= i < |d.columns| ==> d.columns[i] == PrettyName(ShownColumns(wells.header)[i])
  {
    if selected == [] then NoDetails
    else
      var shown := ShownColumns(wells.header);
      Details(seq(|shown|, i requires 0 <= i < |shown| => PrettyName(shown[i])), selected)
  }

  /** Line 220: the cities whose municipality key is the query key. */
  function CitiesNamed(cities: Cities, q: string): (r: seq<City>)
    ensures forall c :: c in r <==> c in cities.rows && c.munKey == q
    ensures IsSubsequence(r, cities.rows)
    ensures forall c :: multiset(r)[c] == if c.munKey == q then multiset(cities.rows)[c] else 0
  {
    Filter((c: City) => c.munKey == q, cities.rows)
  }

  /** Line 258: the states whose key is the query key; none when the states
      table has no key column. */
  function StatesNamed(states: States, q: string): (r: seq<StateRow>)
    ensures forall s :: s in r <==> states.hasKey && s in states.rows && s.key == q
  {
    if states.hasKey then Filter((s: StateRow) => s.key == q, states.rows) else []
  }

  /** Lines 263-266: the cities of the state, or, without a state key column,
      every city whose name text contains the empty string. */
  function InState(cities: Cities, q: string): (r: seq<City>)
    ensures forall c :: c in r <==> c in cities.rows && (cities.hasStateKey ==> c.stateKey == q)
    ensures IsSubsequence(r, cities.rows)
    ensures forall c :: multiset(r)[c] == if cities.hasStateKey ==> c.stateKey == q then multiset(cities.rows)[c] else 0
  {
    if cities.hasStateKey then Filter((c: City) => c.stateKey == q, cities.rows)
    else Filter((c: City) => Contains(AsText(c.name), ""), cities.rows)
  }

  /** A city the state view lists: it has wells and, when the table has
      state keys, the query's state key. */
  predicate InStateWithWells(cities: Cities, q: string, c: City) {
    c.wellCount > 0 && (cities.hasStateKey ==> c.stateKey == q)
  }

  /** Line 268: those of them with at least one well. The whole view is one
      selection from the cities table. */
  function StateView(cities: Cities, q: string): (r: seq<City>)
    ensures forall c :: c in r <==> c in cities.rows && c.wellCount > 0 && (cities.hasStateKey ==> c.stateKey == q)
    ensures IsSubsequence(r, InState(cities, q))
    ensures r == Filter((c: City) => InStateWithWells(cities, q, c), cities.rows)
  {
    InStateFallback(cities, q);
    StateViewSelection(cities, q);
    Filter((c: City) => c.wellCount > 0, InState(cities, q))
  }

  lemma StateViewSelection(cities: Cities, q: string)
    ensures Filter((c: City) => c.wellCount > 0, InState(cities, q)) == Filter((c: City) => InStateWithWells(cities, q, c), cities.rows)
  {
    if cities.hasStateKey {
      FilterCompose((c: City) => c.wellCount > 0, (c: City) => c.stateKey == q, (c: City) => InStateWithWells(cities, q, c), cities.rows);
    } else {
      FilterCompose((c: City) => c.wellCount > 0, (c: City) => Contains(AsText(c.name), ""), (c: City) => InStateWithWells(cities, q, c), cities.rows);
    }
  }

  /** Without a state key column the fallback mask `str.contains('')` holds
      for every city: all rows are kept. */
  lemma InStateFallback(cities: Cities, q: string)
    ensures !cities.hasStateKey ==> InState(cities, q) == cities.rows
  {
    if !cities.hasStateKey {
      forall j | 0 <= j < |cities.rows| ensures Contains(AsText(cities.rows[j].name), "") {
        ContainsTrivial(AsText(cities.rows[j].name));
      }
      FilterAll((c: City) => Contains(AsText(c.name), ""), cities.rows);
    }
  }

  /** Lines 238 and 307: the wells whose key is one of the given keys. */
  function WellsWithKeyIn(wells: Wells, keys: set<string>): (r: seq<Well>)
    ensures forall w :: w in r <==> w in wells.rows && w.munKey in keys
    ensures IsSubsequence(r, wells.rows)
    ensures forall w :: multiset(r)[w] == if w.munKey in keys then multiset(wells.rows)[w] else 0
  {
    Filter((w: Well) => w.munKey in keys, wells.rows)
  }

  /** The municipality branch as written (lines 230-254). Line 250 shows
      `pocos_in_mun`, which is bound only inside `if pocos_lat and pocos_lon`
      (line 238): without coordinate columns in the wells table the name is
      unbound and the script fails, modelled as `None`. */
  function MunicipalityViewAsWritten(city: City, q: string, wells: Wells): (r: Option<MunicipalityView>)
    ensures r.None? <==> city.hasCoords && !wells.hasCoordColumns
    ensures r == Some(SummaryOnly) <==> !city.hasCoords
  {
    if !city.hasCoords then Some(SummaryOnly)
    else if wells.hasCoordColumns then Some(WithMap(ShowTable(wells, WellsWithKeyIn(wells, {q}))))
    else None
  }

  /** The municipality branch as intended: with coordinates, the map and the
      table of the municipality's wells, whether or not the wells have
      coordinate columns of their own (those only add markers). */
  function MunicipalityViewOf(city: City, q: string, wells: Wells): (v: MunicipalityView)
    ensures v.WithMap? <==> city.hasCoords
    ensures v.WithMap? ==> (v.detail == NoDetails <==> forall w :: w in wells.rows ==> w.munKey != q)
    ensures v.WithMap? && v.detail.Details? ==> forall w :: w in v.detail.rows <==> w in wells.rows && w.munKey == q
    ensures v.WithMap? && v.detail.Details? ==> IsSubsequence(v.detail.rows, wells.rows)
    ensures v.WithMap? && v.detail.Details? ==>
      forall w :: multiset(v.detail.rows)[w] == if w.munKey == q then multiset(wells.rows)[w] else 0
  {
    if !city.hasCoords then SummaryOnly
    else WithMap(ShowTable(wells, WellsWithKeyIn(wells, {q})))
  }

  /** The whole query block: an empty query asks for one; otherwise the query
      is normalised once (line 218) and looked up by its key. */
  function Dispatch(query: string, cities: Cities, states: States, wells: Wells): (o: Outcome)
    ensures o.NoQuery? <==> query == ""
    ensures o.MunicipalityFound? ==> o.city in cities.rows && o.city.munKey == Normalize(Some(query))
    ensures o.StateFound? ==> o.state in states.rows && o.state.key == Normalize(Some(query))
    ensures o.StateFound? ==> forall c :: c in cities.rows ==> c.munKey != Normalize(Some(query))
  {
    if query == "" then NoQuery
    else DispatchKey(Normalize(Some(query)), cities, states, wells)
  }

  /** Lines 220-311 for the query key `q`: a municipality match wins, then a
      state match, else nothing is found. */
  function DispatchKey(q: string, cities: Cities, states: States, wells: Wells): (o: Outcome)
    ensures !o.NoQuery?
    ensures o.MunicipalityFound? ==>
      o.city in cities.rows && o.city.munKey == q && o.view == MunicipalityViewOf(o.city, q, wells)
    ensures o.StateFound? ==>
      && (forall c :: c in cities.rows ==> c.munKey != q)
      && o.state in states.rows && o.state.key == q && o.cities == StateView(cities, q)
  {
    var towns := CitiesNamed(cities, q);
    if |towns| >= 1 then
      assert towns[0] in towns;
      MunicipalityFound(towns[0], MunicipalityViewOf(towns[0], q, wells))
    else
      var found := StatesNamed(states, q);
      if |found| >= 1 then
        assert found[0] in found;
        var view := StateView(cities, q);
        var keys := set c | c in view :: c.munKey;
        StateFound(found[0], view, ShowTable(wells, WellsWithKeyIn(wells, keys)))
      else NotFound
  }

  /** The first city whose key is the query key is the municipality found,
      whatever the states table holds. */
  lemma MunicipalityTakesPrecedence(query: string, cities: Cities, states: States, wells: Wells, i: nat)
    requires query != "" && i < |cities.rows|
    requires cities.rows[i].munKey == Normalize(Some(query))
    requires forall j :: 0 <= j < i ==> cities.rows[j].munKey != Normalize(Some(query))
    ensures var city := cities.rows[i];
      Dispatch(query, cities, states, wells) == MunicipalityFound(city, MunicipalityViewOf(city, Normalize(Some(query)), wells))
  {
    var q := Normalize(Some(query));
    FilterFirst((c: City) => c.munKey == q, cities.rows, i);
  }

  /** A state is looked up only when no city matches, and then it is the
      first state row with the query key. */
  lemma StateOnlyWithoutMunicipality(query: string, cities: Cities, states: States, wells: Wells)
    ensures var q, o := Normalize(Some(query)), Dispatch(query, cities, states, wells);
      o.StateFound? <==>
        && query != ""
        && (forall c :: c in cities.rows ==> c.munKey != q)
        && states.hasKey && (exists s :: s in states.rows && s.key == q)
    ensures var q, o := Normalize(Some(query)), Dispatch(query, cities, states, wells);
      o.StateFound? ==> o.state in states.rows && o.state.key == q
    ensures var q, o := Normalize(Some(query)), Dispatch(query, cities, states, wells);
      o.StateFound? ==> exists i :: 0 <= i < |states.rows| && o.state == states.rows[i] && forall j :: 0 <= j < i ==> states.rows[j].key != q
  {
    if query != "" {
      StateKeyOnlyWithoutMunicipality(Normalize(Some(query)), cities, states, wells);
    }
  }

  lemma StateKeyOnlyWithoutMunicipality(q: string, cities: Cities, states: States, wells: Wells)
    ensures var o := DispatchKey(q, cities, states, wells);
      o.StateFound? <==>
        && (forall c :: c in cities.rows ==> c.munKey != q)
        && states.hasKey && (exists s :: s in states.rows && s.key == q)
    ensures var o := DispatchKey(q, cities, states, wells);
      o.StateFound? ==> o.state in states.rows && o.state.key == q
    ensures var o := DispatchKey(q, cities, states, wells);
      o.StateFound? ==> exists i :: 0 <= i < |states.rows| && o.state == states.rows[i] && forall j :: 0 <= j < i ==> states.rows[j].key != q
  {
    var o := DispatchKey(q, cities, states, wells);
    if o.StateFound? {
      var i := FilterHead((s: StateRow) => s.key == q, states.rows);
      assert o.state == states.rows[i];
    }
    if forall c :: c in cities.rows ==> c.munKey != q {
      assert CitiesNamed(cities, q) == [];
      if states.hasKey && exists s :: s in states.rows && s.key == q {
        var s :| s in states.rows && s.key == q;
        assert s in StatesNamed(states, q);
      }
    } else {
      var c :| c in cities.rows && c.munKey == q;
      assert c in CitiesNamed(cities, q);
    }
  }

  /** "Not found" is exactly: a non-empty query whose key is no city's and no
      state's. */
  lemma NotFoundExactly(query: string, cities: Cities, states: States, wells: Wells)
    ensures var q := Normalize(Some(query));
      Dispatch(query, cities, states, wells) == NotFound <==>
        && query != ""
        && (forall c :: c in cities.rows ==> c.munKey != q)
        && (!states.hasKey || forall s :: s in states.rows ==> s.key != q)
  {
    if query != "" {
      NotFoundKey(Normalize(Some(query)), cities, states, wells);
    }
  }

  lemma NotFoundKey(q: string, cities: Cities, states: States, wells: Wells)
    ensures DispatchKey(q, cities, states, wells) == NotFound <==>
        && (forall c :: c in cities.rows ==> c.munKey != q)
        && (!states.hasKey || forall s :: s in states.rows ==> s.key != q)
  {
    if exists c :: c in cities.rows && c.munKey == q {
      var c :| c in cities.rows && c.munKey == q;
      assert c in CitiesNamed(cities, q);
    } else if states.hasKey && exists s :: s in states.rows && s.key == q {
      var s :| s in states.rows && s.key == q;
      assert s in StatesNamed(states, q);
    } else {
      assert CitiesNamed(cities, q) == [];
      assert StatesNamed(states, q) == [];
    }
  }

  /** The state view lists exactly the cities of the state (every city when
      the table has no state key) that have wells, in table order, and the
      detail table lists exactly the wells of those cities. */
  lemma StateViewExact(query: string, cities: Cities, states: States, wells: Wells)
    ensures var q, o := Normalize(Some(query)), Dispatch(query, cities, states, wells);
      o.StateFound? ==>
        && (forall c :: c in o.cities <==> c in cities.rows && c.wellCount > 0 && (cities.hasStateKey ==> c.stateKey == q))
        && (cities.hasStateKey ==> IsSubsequence(o.cities, Filter((c: City) => c.stateKey == q, cities.rows)))
        && (!cities.hasStateKey ==> IsSubsequence(o.cities, cities.rows))
        && (o.detail == NoDetails <==> forall w :: w in wells.rows ==> forall c :: c in o.cities ==> c.munKey != w.munKey)
        && (o.detail.Details? ==> forall w :: w in o.detail.rows <==> w in wells.rows && exists c :: c in o.cities && c.munKey == w.munKey)
        && IsSubsequence(o.cities, cities.rows)
        && (forall c :: multiset(o.cities)[c] == if InStateWithWells(cities, q, c) then multiset(cities.rows)[c] else 0)
        && (o.detail.Details? ==> IsSubsequence(o.detail.rows, wells.rows))
        && (o.detail.Details? ==>
              forall w :: multiset(o.detail.rows)[w] == if exists c :: c in o.cities && c.munKey == w.munKey then multiset(wells.rows)[w] else 0)
  {
    if query != "" {
      StateViewKey(Normalize(Some(query)), cities, states, wells);
    }
  }

  lemma StateViewKey(q: string, cities: Cities, states: States, wells: Wells)
    ensures var o := DispatchKey(q, cities, states, wells);
      o.StateFound? ==>
        && (forall c :: c in o.cities <==> c in cities.rows && c.wellCount > 0 && (cities.hasStateKey ==> c.stateKey == q))
        && (cities.hasStateKey ==> IsSubsequence(o.cities, Filter((c: City) => c.stateKey == q, cities.rows)))
        && (!cities.hasStateKey ==> IsSubsequence(o.cities, cities.rows))
        && (o.detail == NoDetails <==> forall w :: w in wells.rows ==> forall c :: c in o.cities ==> c.munKey != w.munKey)
        && (o.detail.Details? ==> forall w :: w in o.detail.rows <==> w in wells.rows && exists c :: c in o.cities && c.munKey == w.munKey)
        && IsSubsequence(o.cities, cities.rows)
        && (forall c :: multiset(o.cities)[c] == if InStateWithWells(cities, q, c) then multiset(cities.rows)[c] else 0)
        && (o.detail.Details? ==> IsSubsequence(o.detail.rows, wells.rows))
        && (o.detail.Details? ==>
              forall w :: multiset(o.detail.rows)[w] == if exists c :: c in o.cities && c.munKey == w.munKey then multiset(wells.rows)[w] else 0)
  {
    InStateFallback(cities, q);
    var o := DispatchKey(q, cities, states, wells);
    if o.StateFound? {
      var keys := set c | c in o.cities :: c.munKey;
      var selected := WellsWithKeyIn(wells, keys);
      if selected != [] {
        var w := selected[0];
        assert w in selected;
        assert w.munKey in keys;
      }
    }
  }

  /** Queries with the same key select the same rows; the raw query matters
      only through being empty or not. */
  lemma SameKeySameOutcome(q1: string, q2: string, cities: Cities, states: States, wells: Wells)
    requires (q1 == "") == (q2 == "")
    requires Normalize(Some(q1)) == Normalize(Some(q2))
    ensures Dispatch(q1, cities, states, wells) == Dispatch(q2, cities, states, wells)
  {
  }

  /** Case, the eight folded accents and surrounding whitespace in the query
      make no difference to the outcome. */
  lemma QueryIgnoresCaseAccentsAndPadding(query: string, p: string, s: string, cities: Cities, states: States, wells: Wells)
    requires query != "" && AllSpace(p) && AllSpace(s)
    ensures Dispatch(LowerStr(query), cities, states, wells) == Dispatch(query, cities, states, wells)
    ensures Dispatch(FoldAccents(query), cities, states, wells) == Dispatch(query, cities, states, wells)
    ensures Dispatch(p + query + s, cities, states, wells) == Dispatch(query, cities, states, wells)
  {
    NormalizeIgnoresCase(query);
    NormalizeIgnoresFolding(query);
    NormalizeIgnoresPadding(p, query, s);
    assert |FoldAccents(query)| == |query|;
  }

  /** A state typed with spaces and capitals, "Piauí", that no city is
      named: the dispatch finds the state, not "nothing". */
  lemma StateQueryExample(query: string, cities: Cities, states: States, wells: Wells)
    requires query == " PIAUÍ "
    requires states.hasKey && states.rows == [StateRow(Some("Piauí"), "piaui")]
    requires forall c :: c in cities.rows ==> c.munKey != "piaui"
    ensures Dispatch(query, cities, states, wells).StateFound?
    ensures Dispatch(query, cities, states, wells).state == StateRow(Some("Piauí"), "piaui")
  {
    NormalizeExampleState(query);
    StateOnlyWithoutMunicipality(query, cities, states, wells);
    assert states.rows[0] in states.rows;
  }

  /** As written, a municipality with coordinates and a wells table without
      coordinate columns makes line 250 read an unbound name. */
  lemma UnboundWellsSelection(city: City, q: string, wells: Wells)
    requires city.hasCoords && !wells.hasCoordColumns
    ensures MunicipalityViewAsWritten(city, q, wells) == None
  {
  }

  /** Wherever the code as written runs through, the corrected view agrees
      with it. */
  lemma MunicipalityViewAgrees(city: City, q: string, wells: Wells)
    ensures MunicipalityViewAsWritten(city, q, wells).Some? ==>
      MunicipalityViewAsWritten(city, q, wells) == Some(MunicipalityViewOf(city, q, wells))
    ensures MunicipalityViewAsWritten(city, q, wells).None? <==> city.hasCoords && !wells.hasCoordColumns
  {
  }
}
