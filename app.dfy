/** The data-shaping logic of the Streamlit app: loading and normalising
    the state and district frames, the sorted option lists, the selection
    by name, the gating of the export and buffer tools, the list of target
    points kept across reruns, and the two placeholder attribute columns. */
module App {
  import opened PyStr
  import opened Frames

  datatype Option<T> = None | Some(value: T)

  // ---------------------------------------------------------------------
  // Loading
  // ---------------------------------------------------------------------

  /** Every cell of column `c` is a trimmed str or a missing value. */
  predicate NamesTrimmed(t: Table, c: string)
    requires t.WellFormed() && c in t.columns
  {
    forall i :: 0 <= i < |t.rows| ==> TrimmedName(t.rows[i][c])
  }

  /** The states frame as loaded: `name` renamed to `State`, then `State`
      stripped.  `None` is the KeyError raised when there is no `State`
      column to strip. */
  function StatesTable(raw: Table): (r: Option<Table>)
    requires raw.WellFormed() && !("name" in raw.columns && "State" in raw.columns)
    ensures r.Some? <==> "name" in raw.columns || "State" in raw.columns
    ensures r.Some? ==> r.value.WellFormed() && "State" in r.value.columns
                        && "name" !in r.value.columns && NamesTrimmed(r.value, "State")
    ensures r.Some? ==> var src := if "name" in raw.columns then "name" else "State";
                        && r.value.columns == raw.columns - {"name"} + {"State"}
                        && |r.value.rows| == |raw.rows|
                        && (forall i :: 0 <= i < |raw.rows| ==>
                              r.value.rows[i]["State"] == StripCell(raw.rows[i][src]))
                        && (forall d :: d in raw.columns && d != src ==> r.value.Column(d) == raw.Column(d))
  {
    var t := RenameColumn(raw, "name", "State");
    if "State" in t.columns then Some(StripColumn(t, "State")) else None
  }

  /** Loads the states: the rename builds a new frame, whose `State` column
      is then reassigned in place.  `null` stands for the KeyError. */
  method LoadStates(raw: Table) returns (states: Frame?)
    requires raw.WellFormed() && !("name" in raw.columns && "State" in raw.columns)
    ensures states == null <==> StatesTable(raw).None?
    ensures states != null ==> fresh(states) && states.Valid()
                               && states.Snapshot() == StatesTable(raw).value
  {
    var t := RenameColumn(raw, "name", "State");
    if "State" !in t.columns {
      return null;
    }
    states := new Frame(t);
    states.StripNames("State");
  }

  /** The district name column: `dtname` is taken only when there is no
      `district` column. */
  function ResolveDistrictColumn(t: Table): (r: Table)
    requires t.WellFormed()
    ensures r.WellFormed()
    ensures "district" in r.columns <==> "district" in t.columns || "dtname" in t.columns
    ensures "district" in t.columns ==> r == t
    ensures "district" !in t.columns && "dtname" !in t.columns ==> r == t
    ensures "district" !in t.columns && "dtname" in t.columns ==>
              && r.columns == t.columns - {"dtname"} + {"district"}
              && r.Column("district") == t.Column("dtname")
              && forall d :: d in t.columns && d != "dtname" ==> r.Column(d) == t.Column(d)
  {
    if "district" !in t.columns && "dtname" in t.columns then
      RenameColumn(t, "dtname", "district")
    else t
  }

  /** `load_districts` as a value: resolve the name column, then strip it
      if there is one. */
  function DistrictsTable(raw: Table): (r: Table)
    requires raw.WellFormed()
    ensures r.WellFormed()
    ensures "district" in r.columns <==> "district" in raw.columns || "dtname" in raw.columns
    ensures "district" in r.columns ==> NamesTrimmed(r, "district")
    ensures |r.rows| == |raw.rows|
    ensures "district" !in r.columns ==> r == raw
    ensures "district" in r.columns ==>
              var src := if "district" in raw.columns then "district" else "dtname";
              && r.columns == raw.columns - {src} + {"district"}
              && (forall i :: 0 <= i < |raw.rows| ==>
                    r.rows[i]["district"] == StripCell(raw.rows[i][src]))
              && (forall d :: d in raw.columns && d != src ==> r.Column(d) == raw.Column(d))
  {
    var t := ResolveDistrictColumn(raw);
    if "district" in t.columns then StripColumn(t, "district") else t
  }

  method LoadDistricts(raw: Table) returns (districts: Frame)
    requires raw.WellFormed()
    ensures fresh(districts) && districts.Valid() && districts.Snapshot() == DistrictsTable(raw)
  {
    var t := ResolveDistrictColumn(raw);
    districts := new Frame(t);
    if "district" in districts.columns {
      districts.StripNames("district");
    }
  }

  /** After loading, stripping the state names again changes nothing. */
  lemma StatesNamesStable(raw: Table)
    requires raw.WellFormed() && !("name" in raw.columns && "State" in raw.columns)
    requires StatesTable(raw).Some?
    ensures StripColumn(StatesTable(raw).value, "State") == StatesTable(raw).value
  {
    StripColumnTrimmed(StatesTable(raw).value, "State");
  }

  /** After loading, stripping the district names again changes nothing. */
  lemma DistrictNamesStable(raw: Table)
    requires raw.WellFormed()
    requires "district" in raw.columns || "dtname" in raw.columns
    ensures "district" in DistrictsTable(raw).columns
    ensures StripColumn(DistrictsTable(raw), "district") == DistrictsTable(raw)
  {
    StripColumnTrimmed(DistrictsTable(raw), "district");
  }

  // ---------------------------------------------------------------------
  // Option lists: `col.sort_values().unique().tolist()`
  // ---------------------------------------------------------------------

  /** Python's `<` on str: code point by code point, a proper prefix first. */
  predicate StrLess(a: string, b: string) {
    if a == [] then b != []
    else if b == [] then false
    else if a[0] != b[0] then a[0] < b[0]
    else StrLess(a[1..], b[1..])
  }

  lemma {:induction false} StrLessIrreflexive(a: string)
    ensures !StrLess(a, a)
  {
    if a != [] {
      StrLessIrreflexive(a[1..]);
    }
  }

  lemma {:induction false} StrLessTransitive(a: string, b: string, c: string)
    requires StrLess(a, b) && StrLess(b, c)
    ensures StrLess(a, c)
  {
    if a != [] && b != [] && c != [] && a[0] == b[0] == c[0] {
      StrLessTransitive(a[1..], b[1..], c[1..]);
    }
  }

  lemma {:induction false} StrLessTotal(a: string, b: string)
    requires a != b
    ensures StrLess(a, b) != StrLess(b, a)
  {
    if a != [] && b != [] && a[0] == b[0] {
      assert a == [a[0]] + a[1..] && b == [b[0]] + b[1..];
      StrLessTotal(a[1..], b[1..]);
    }
  }

  /** A cell of a stripped name column. */
  predicate NameCell(c: Cell) {
    c.Text? || c.Missing?
  }

  predicate NameCells(s: seq<Cell>) {
    forall k :: 0 <= k < |s| ==> NameCell(s[k])
  }

  /** The order of `sort_values` on names: strs by `<`, missing values last. */
  predicate Before(a: Cell, b: Cell) {
    (a.Text? && b.Text? && StrLess(a.s, b.s)) || (a.Text? && b.Missing?)
  }

  lemma BeforeTransitive(a: Cell, b: Cell, c: Cell)
    requires Before(a, b) && Before(b, c)
    ensures Before(a, c)
  {
    if a.Text? && b.Text? && c.Text? {
      StrLessTransitive(a.s, b.s, c.s);
    }
  }

  lemma BeforeTotal(a: Cell, b: Cell)
    requires NameCell(a) && NameCell(b) && a != b
    ensures Before(a, b) != Before(b, a)
  {
    if a.Text? && b.Text? {
      StrLessTotal(a.s, b.s);
    }
  }

  /** Strictly ascending, hence free of duplicates. */
  predicate Ascending(s: seq<Cell>) {
    forall i, j :: 0 <= i < j < |s| ==> Before(s[i], s[j])
  }

  /** Puts `x` into an ascending list unless it is already there. */
  function InsertName(x: Cell, s: seq<Cell>): (r: seq<Cell>)
    requires NameCell(x) && NameCells(s) && Ascending(s)
    ensures NameCells(r) && Ascending(r)
    ensures forall y :: y in r <==> y == x || y in s
  {
    if s == [] then [x]
    else if x == s[0] then s
    else if Before(x, s[0]) then
      assert forall k :: 0 < k < |s| ==> Before(x, s[k]) by {
        forall k | 0 < k < |s| ensures Before(x, s[k]) {
          BeforeTransitive(x, s[0], s[k]);
        }
      }
      [x] + s
    else
      BeforeTotal(x, s[0]);
      var rest := InsertName(x, s[1..]);
      assert forall y :: y in rest ==> Before(s[0], y) by {
        forall y | y in rest ensures Before(s[0], y) {
          if y != x {
            var k :| 0 <= k < |s[1..]| && s[1..][k] == y;
            assert s[k + 1] == y;
          }
        }
      }
      [s[0]] + rest
  }

  /** The option list of a names column: ascending, without duplicates, and
      made of exactly the distinct names present. */
  function Options(col: seq<Cell>): (r: seq<Cell>)
    requires NameCells(col)
    ensures NameCells(r) && Ascending(r)
    ensures forall y :: y in r <==> y in col
  {
    if col == [] then []
    else InsertName(col[0], Options(col[1..]))
  }

  /** Two ascending lists with the same elements are the same list, so the
      option list is determined by the set of names alone. */
  lemma {:induction false} AscendingUnique(a: seq<Cell>, b: seq<Cell>)
    requires Ascending(a) && Ascending(b)
    requires forall y :: y in a <==> y in b
    ensures a == b
  {
    assert a != [] ==> a[0] in a;
    assert b != [] ==> b[0] in b;
    if a != [] && b != [] {
      assert a[0] in b && b[0] in a;
      if a[0] != b[0] {
        var i :| 0 <= i < |a| && a[i] == b[0];
        var j :| 0 <= j < |b| && b[j] == a[0];
        assert Before(a[0], b[0]) && Before(b[0], a[0]);
        BeforeTransitive(a[0], b[0], a[0]);
        StrLessIrreflexive(a[0].s);
        assert false;
      }
      forall y ensures y in a[1..] <==> y in b[1..] {
        if y in a[1..] {
          var k :| 0 <= k < |a[1..]| && a[1..][k] == y;
          assert Before(a[0], y);
          NotBeforeItself(a[0]);
        }
        if y in b[1..] {
          var k :| 0 <= k < |b[1..]| && b[1..][k] == y;
          assert Before(b[0], y);
          NotBeforeItself(b[0]);
        }
        assert y in a <==> y == a[0] || y in a[1..];
        assert y in b <==> y == b[0] || y in b[1..];
      }
      AscendingUnique(a[1..], b[1..]);
      assert a == [a[0]] + a[1..] && b == [b[0]] + b[1..];
    }
  }

  lemma NotBeforeItself(c: Cell)
    ensures !Before(c, c)
  {
    if c.Text? {
      StrLessIrreflexive(c.s);
    }
  }

  /** `df[c].sort_values().unique().tolist()`; `None` is the KeyError
      raised when the frame has no column `c`. */
  function ColumnOptions(t: Table, c: string): (r: Option<seq<Cell>>)
    requires t.WellFormed()
    requires c in t.columns ==> NameCells(t.Column(c))
    ensures r.None? <==> c !in t.columns
    ensures r.Some? ==> Ascending(r.value) && forall y :: y in r.value <==> y in t.Column(c)
  {
    if c in t.columns then Some(Options(t.Column(c))) else None
  }

  // ---------------------------------------------------------------------
  // Selection: `df[df[c].isin(chosen)]`
  // ---------------------------------------------------------------------

  predicate HasColumn(rows: seq<Row>, c: string) {
    forall i :: 0 <= i < |rows| ==> c in rows[i]
  }

  /** The rows whose cell in column `c` is one of the chosen names, in
      their original order. */
  function SelectRows(rows: seq<Row>, c: string, chosen: seq<Cell>): (r: seq<Row>)
    requires HasColumn(rows, c)
    ensures |r| <= |rows| && HasColumn(r, c)
    ensures forall k :: 0 <= k < |r| ==> r[k][c] in chosen
  {
    if rows == [] then []
    else (if rows[0][c] in chosen then [rows[0]] else []) + SelectRows(rows[1..], c, chosen)
  }

  /** The selection of a concatenation is the concatenation of the
      selections: rows keep their relative order, and whether a row is
      kept depends on that row alone. */
  lemma {:induction false} SelectRowsConcat(a: seq<Row>, b: seq<Row>, c: string, chosen: seq<Cell>)
    requires HasColumn(a, c) && HasColumn(b, c)
    ensures HasColumn(a + b, c)
    ensures SelectRows(a + b, c, chosen) == SelectRows(a, c, chosen) + SelectRows(b, c, chosen)
  {
    assert HasColumn(a + b, c) by {
      forall i | 0 <= i < |a + b| ensures c in (a + b)[i] {
        if i < |a| { assert (a + b)[i] == a[i]; } else { assert (a + b)[i] == b[i - |a|]; }
      }
    }
    if a == [] {
      assert a + b == b;
    } else {
      assert (a + b)[0] == a[0] && (a + b)[1..] == a[1..] + b;
      SelectRowsConcat(a[1..], b, c, chosen);
    }
  }

  /** A single row is kept exactly when its name is chosen. */
  lemma SelectRowsSingle(x: Row, c: string, chosen: seq<Cell>)
    requires c in x
    ensures SelectRows([x], c, chosen) == if x[c] in chosen then [x] else []
  {
    assert [x][1..] == [];
  }

  /** How the selection from `rows` is made from the one from `rows[1..]`. */
  lemma SelectStep(rows: seq<Row>, c: string, chosen: seq<Cell>)
    requires HasColumn(rows, c) && rows != []
    ensures var r := SelectRows(rows, c, chosen);
            var rest := SelectRows(rows[1..], c, chosen);
            var h := if rows[0][c] in chosen then 1 else 0;
            && |r| == h + |rest|
            && (h == 1 ==> r[0] == rows[0])
            && forall k :: h <= k < |r| ==> r[k] == rest[k - h]
  {
  }

  /** Every selected row is a row of the frame. */
  lemma {:induction false} SelectRowsFromFrame(rows: seq<Row>, c: string, chosen: seq<Cell>)
    requires HasColumn(rows, c)
    ensures forall k :: 0 <= k < |SelectRows(rows, c, chosen)| ==> SelectRows(rows, c, chosen)[k] in rows
  {
    if rows != [] {
      var r := SelectRows(rows, c, chosen);
      var rest := SelectRows(rows[1..], c, chosen);
      SelectRowsFromFrame(rows[1..], c, chosen);
      SelectStep(rows, c, chosen);
      var h := if rows[0][c] in chosen then 1 else 0;
      forall k | 0 <= k < |r| ensures r[k] in rows {
        if k >= h {
          assert r[k] == rest[k - h] && rest[k - h] in rows[1..];
        }
      }
    }
  }

  /** Every row of the frame with a chosen name is selected. */
  lemma {:induction false} SelectRowsComplete(rows: seq<Row>, c: string, chosen: seq<Cell>)
    requires HasColumn(rows, c)
    ensures forall i :: 0 <= i < |rows| && rows[i][c] in chosen ==> rows[i] in SelectRows(rows, c, chosen)
  {
    if rows != [] {
      var r := SelectRows(rows, c, chosen);
      var rest := SelectRows(rows[1..], c, chosen);
      SelectRowsComplete(rows[1..], c, chosen);
      SelectStep(rows, c, chosen);
      var h := if rows[0][c] in chosen then 1 else 0;
      forall i | 0 <= i < |rows| && rows[i][c] in chosen ensures rows[i] in r {
        if i > 0 {
          assert rows[i] == rows[1..][i - 1];
          var k :| 0 <= k < |rest| && rest[k] == rows[i];
          assert r[k + h] == rows[i];
        } else {
          assert r[0] == rows[0];
        }
      }
    }
  }

  /** Only which of the names present are chosen matters: chosen names
      absent from the data are dropped without effect. */
  lemma {:induction false} SelectIgnoresAbsent(rows: seq<Row>, c: string, chosen: seq<Cell>, chosen': seq<Cell>)
    requires HasColumn(rows, c)
    requires forall i :: 0 <= i < |rows| ==> (rows[i][c] in chosen <==> rows[i][c] in chosen')
    ensures SelectRows(rows, c, chosen) == SelectRows(rows, c, chosen')
  {
    if rows != [] {
      SelectIgnoresAbsent(rows[1..], c, chosen, chosen');
    }
  }

  /** `df[df[c].isin(chosen)]`: same columns, the matching rows in order. */
  function Select(t: Table, c: string, chosen: seq<Cell>): (r: Table)
    requires t.WellFormed() && c in t.columns
    ensures r.WellFormed() && r.columns == t.columns
    ensures forall k :: 0 <= k < |r.rows| ==> r.rows[k] in t.rows && r.rows[k][c] in chosen
    ensures forall i :: 0 <= i < |t.rows| && t.rows[i][c] in chosen ==> t.rows[i] in r.rows
  {
    SelectRowsFromFrame(t.rows, c, chosen);
    SelectRowsComplete(t.rows, c, chosen);
    Table(t.columns, SelectRows(t.rows, c, chosen))
  }

  /** A mask that keeps every row keeps the frame as it is. */
  lemma {:induction false} SelectRowsAll(rows: seq<Row>, c: string, chosen: seq<Cell>)
    requires HasColumn(rows, c)
    requires forall i :: 0 <= i < |rows| ==> rows[i][c] in chosen
    ensures SelectRows(rows, c, chosen) == rows
  {
    if rows != [] {
      SelectRowsAll(rows[1..], c, chosen);
      assert rows == [rows[0]] + rows[1..];
    }
  }

  /** Choosing every option offered selects the whole frame. */
  lemma SelectAllOptions(t: Table, c: string)
    requires t.WellFormed() && c in t.columns && NameCells(t.Column(c))
    ensures Select(t, c, ColumnOptions(t, c).value) == t
  {
    var opts := ColumnOptions(t, c).value;
    forall i | 0 <= i < |t.rows| ensures t.rows[i][c] in opts {
      assert t.Column(c)[i] == t.rows[i][c];
    }
    SelectRowsAll(t.rows, c, opts);
  }

  // ---------------------------------------------------------------------
  // Export and buffer tools
  // ---------------------------------------------------------------------

  /** What the tools section shows: a hint, the export of the selection,
      or the export together with a buffer of `km` kilometres. */
  datatype Tools = Hint | Export(selection: Table) | ExportAndBuffer(selection: Table, km: real)

  /** The gating of lines 130 and 139; `bufferKm` comes from a number input
      bounded to [0, 500].  A frame is `empty` when it has no rows or no
      columns. */
  function ToolsFor(selected: Option<Table>, bufferKm: real): (r: Tools)
    requires 0.0 <= bufferKm <= 500.0
    ensures r.Hint? <==> selected.None? || |selected.value.rows| == 0 || |selected.value.columns| == 0
    ensures !r.Hint? ==> r.selection == selected.value
    ensures r.ExportAndBuffer? <==> !r.Hint? && bufferKm > 0.0
    ensures r.ExportAndBuffer? ==> r.km == bufferKm && 0.0 < r.km <= 500.0
  {
    if selected.None? || |selected.value.rows| == 0 || |selected.value.columns| == 0 then Hint
    else if bufferKm > 0.0 then ExportAndBuffer(selected.value, bufferKm)
    else Export(selected.value)
  }

  // ---------------------------------------------------------------------
  // Target points kept across reruns
  // ---------------------------------------------------------------------

  type Point = (real, real)

  /** `clicks if clicks else None`: the connector step gets no list at all
      rather than an empty one. */
  function TargetCoords(clicks: seq<Point>): (r: Option<seq<Point>>)
    ensures r.None? <==> clicks == []
    ensures r.Some? ==> r.value == clicks
  {
    if clicks == [] then None else Some(clicks)
  }

  /** A Python list of points. */
  class PointList {
    var items: seq<Point>

    constructor ()
      ensures items == []
    {
      items := [];
    }

    /** `list.append`. */
    method Append(p: Point)
      modifies this
      ensures items == old(items) + [p]
    {
      items := items + [p];
    }
  }

  /** The session state as far as target points go. */
  class Session {
    /** `st.session_state["clicks"]`; null while the key is absent. */
    var clicks: PointList?

    constructor ()
      ensures clicks == null
    {
      clicks := null;
    }

    /** One run of the script over the target-point widgets (lines 90-103)
        and the list it hands to the connector step (line 162).  The local
        `clicks` of the script aliases the session's list when there is one;
        the proof shows it always ends with the session's contents. */
    method Rerun(clearPressed: bool, addPressed: bool, lon: real, lat: real)
      returns (targets: Option<seq<Point>>)
      modifies this, clicks
      ensures clicks != null
      ensures clicks.items == (if clearPressed || old(clicks) == null then [] else old(clicks.items))
                              + (if addPressed then [(lon, lat)] else [])
      ensures !clearPressed && old(clicks) != null ==> clicks == old(clicks)
      ensures clearPressed || old(clicks) == null ==> fresh(clicks)
      ensures targets == TargetCoords(clicks.items)
    {
      var local: PointList;
      if clicks != null {
        local := clicks;
      } else {
        local := new PointList();
      }
      if clearPressed {
        clicks := new PointList();
        local := new PointList();
      }
      if clicks == null {
        clicks := new PointList();
      }
      if addPressed {
        clicks.Append((lon, lat));
        local := clicks;
      }
      targets := TargetCoords(local.items);
    }
  }

  // ---------------------------------------------------------------------
  // Placeholder attributes
  // ---------------------------------------------------------------------

  /** `get_population`: one draw per state row, each in
      [1,000,000, 50,000,000]; the draw itself is left open. */
  method GetPopulation(states: Table) returns (population: seq<int>)
    ensures |population| == |states.rows|
    ensures forall i :: 0 <= i < |population| ==> 1_000_000 <= population[i] <= 50_000_000
  {
    population := [];
    while |population| < |states.rows|
      invariant |population| <= |states.rows|
      invariant forall i :: 0 <= i < |population| ==> 1_000_000 <= population[i] <= 50_000_000
    {
      var p :| 1_000_000 <= p <= 50_000_000;
      population := population + [p];
    }
  }

  function IntCells(xs: seq<int>): (r: seq<Cell>)
    ensures |r| == |xs| && forall i :: 0 <= i < |xs| ==> r[i] == Int(xs[i])
  {
    seq(|xs|, i requires 0 <= i < |xs| => Int(xs[i]))
  }

  /** Line 190: the states frame gets a `Population` column in place. */
  method AddPopulation(states: Frame) returns (population: seq<int>)
    requires states.Valid()
    modifies states
    ensures states.Valid() && |population| == |old(states.rows)|
    ensures forall i :: 0 <= i < |population| ==> 1_000_000 <= population[i] <= 50_000_000
    ensures states.Snapshot() == WithColumn(old(states.Snapshot()), "Population", IntCells(population))
  {
    population := GetPopulation(states.Snapshot());
    states.SetColumn("Population", IntCells(population));
  }

  /** `list(range(n))`. */
  function Positions(n: nat): (r: seq<Cell>)
    ensures |r| == n
    ensures forall i :: 0 <= i < n ==> r[i] == Int(i)
  {
    if n == 0 then [] else Positions(n - 1) + [Int(n - 1)]
  }

  /** Lines 209-210: a copy of the districts gets an `Index` column
      0..n-1; the loaded frame itself is not touched. */
  method IndexedDistricts(districts: Frame) returns (indexed: Frame)
    requires districts.Valid()
    ensures fresh(indexed) && indexed.Valid()
    ensures indexed.Snapshot() == WithColumn(districts.Snapshot(), "Index", Positions(|districts.rows|))
    ensures unchanged(districts)
  {
    indexed := districts.Copy();
    indexed.SetColumn("Index", Positions(|indexed.rows|));
  }
}
