/** The slice of (geo)pandas data-frame behaviour the app relies on: column
    labels, rows in order, renaming a column, `.str.strip()` on a column,
    assigning a whole column, and copying. */
module Frames {
  import opened PyStr

  /** One cell: a str, an int, a missing value (None or NaN), or any other
      object (a geometry, a float) known only by an identity. */
  datatype Cell = Text(s: string) | Int(n: int) | Missing | Opaque(id: nat)

  type Row = map<string, Cell>

  /** A frame as a value: its column labels and its rows, in order. */
  datatype Table = Table(columns: set<string>, rows: seq<Row>) {

    /** Every row has exactly the frame's columns. */
    predicate WellFormed() {
      forall i :: 0 <= i < |rows| ==> rows[i].Keys == columns
    }

    /** `df[c]` as a list of cells. */
    function Column(c: string): (col: seq<Cell>)
      requires WellFormed() && c in columns
      ensures |col| == |rows|
      ensures forall i :: 0 <= i < |rows| ==> col[i] == rows[i][c]
    {
      seq(|rows|, i requires 0 <= i < |rows| => rows[i][c])
    }
  }

  /** `df.rename(columns={old: new})`.  A label that is not there is
      ignored, as pandas does by default. */
  function RenameColumn(t: Table, from: string, to: string): (r: Table)
    requires t.WellFormed() && from != to && (from in t.columns ==> to !in t.columns)
    ensures r.WellFormed()
    ensures from !in t.columns ==> r == t
    ensures from in t.columns ==> r.columns == t.columns - {from} + {to}
    ensures from in t.columns ==> r.Column(to) == t.Column(from)
    ensures forall c :: c in t.columns && c != from ==> c in r.columns && r.Column(c) == t.Column(c)
  {
    if from !in t.columns then t
    else
      Table(t.columns - {from} + {to},
            seq(|t.rows|, i requires 0 <= i < |t.rows| => (t.rows[i] - {from})[to := t.rows[i][from]]))
  }

  /** Renaming back undoes a rename. */
  lemma RenameRoundTrip(t: Table, from: string, to: string)
    requires t.WellFormed() && from != to && to !in t.columns && from in t.columns
    ensures RenameColumn(RenameColumn(t, from, to), to, from) == t
  {
    var r := RenameColumn(t, from, to);
    var b := RenameColumn(r, to, from);
    assert b.columns == t.columns;
    assert |b.rows| == |t.rows|;
    forall i | 0 <= i < |t.rows| ensures b.rows[i] == t.rows[i] {
      assert b.rows[i].Keys == t.rows[i].Keys;
      forall c | c in t.columns ensures b.rows[i][c] == t.rows[i][c] {
        if c == from {
          assert b.Column(from)[i] == r.Column(to)[i];
        } else {
          assert b.Column(c)[i] == r.Column(c)[i] == t.Column(c)[i];
        }
      }
    }
  }

  /** `.str.strip()` on one cell: a str is stripped, a missing cell is kept
      as it is, and any other non-str cell becomes NaN, which is also
      missing. */
  function StripCell(c: Cell): Cell {
    if c.Text? then Text(Strip(c.s)) else Missing
  }

  /** A name cell as it is after `.str.strip()`: a trimmed str, or a missing value. */
  predicate TrimmedName(c: Cell) {
    (c.Text? && Trimmed(c.s)) || c.Missing?
  }

  /** `df[c] = df[c].str.strip()`, as a value: only column `c` changes,
      and every cell of it becomes a trimmed str or a missing value. */
  function StripColumn(t: Table, c: string): (r: Table)
    requires t.WellFormed() && c in t.columns
    ensures r.WellFormed() && r.columns == t.columns && |r.rows| == |t.rows|
    ensures forall i :: 0 <= i < |r.rows| ==> TrimmedName(r.rows[i][c])
    ensures forall i :: 0 <= i < |r.rows| ==> r.rows[i][c] == StripCell(t.rows[i][c])
    ensures forall i, d :: 0 <= i < |r.rows| && d in t.columns && d != c ==> r.rows[i][d] == t.rows[i][d]
  {
    Table(t.columns, seq(|t.rows|, i requires 0 <= i < |t.rows| => t.rows[i][c := StripCell(t.rows[i][c])]))
  }

  /** A column of trimmed names is left alone by another strip. */
  lemma StripColumnTrimmed(t: Table, c: string)
    requires t.WellFormed() && c in t.columns
    requires forall i :: 0 <= i < |t.rows| ==> TrimmedName(t.rows[i][c])
    ensures StripColumn(t, c) == t
  {
    var r := StripColumn(t, c);
    forall i | 0 <= i < |t.rows| ensures r.rows[i] == t.rows[i] {
      var x := t.rows[i][c];
      if x.Text? {
        StripTrimmed(x.s);
      }
      assert r.rows[i][c] == x;
    }
    assert r.rows == t.rows;
  }

  lemma StripColumnIdempotent(t: Table, c: string)
    requires t.WellFormed() && c in t.columns
    ensures StripColumn(StripColumn(t, c), c) == StripColumn(t, c)
  {
    StripColumnTrimmed(StripColumn(t, c), c);
  }

  /** `df[c] = values`: the column is created or replaced, the rest kept. */
  function WithColumn(t: Table, c: string, values: seq<Cell>): (r: Table)
    requires t.WellFormed() && |values| == |t.rows|
    ensures r.WellFormed() && r.columns == t.columns + {c}
    ensures r.Column(c) == values
    ensures forall d :: d in t.columns && d != c ==> r.Column(d) == t.Column(d)
  {
    Table(t.columns + {c}, seq(|t.rows|, i requires 0 <= i < |t.rows| => t.rows[i][c := values[i]]))
  }

  /** A data frame object, whose columns the app reassigns in place. */
  class Frame {
    var columns: set<string>
    var rows: seq<Row>

    function Snapshot(): Table
      reads this
    {
      Table(columns, rows)
    }

    ghost predicate Valid()
      reads this
    {
      Snapshot().WellFormed()
    }

    /** A frame holding the given table (what `read_file` hands back). */
    constructor (t: Table)
      requires t.WellFormed()
      ensures Valid() && Snapshot() == t
    {
      columns := t.columns;
      rows := t.rows;
    }

    /** `df[c] = df[c].str.strip()`. */
    method StripNames(c: string)
      requires Valid() && c in columns
      modifies this
      ensures Valid() && Snapshot() == StripColumn(old(Snapshot()), c)
    {
      var t := StripColumn(Snapshot(), c);
      columns, rows := t.columns, t.rows;
    }

    /** `df[c] = values`, with as many values as rows. */
    method SetColumn(c: string, values: seq<Cell>)
      requires Valid() && |values| == |rows|
      modifies this
      ensures Valid() && Snapshot() == WithColumn(old(Snapshot()), c, values)
    {
      var t := WithColumn(Snapshot(), c, values);
      columns, rows := t.columns, t.rows;
    }

    /** `df.copy()`: a new object with the same contents. */
    method Copy() returns (g: Frame)
      requires Valid()
      ensures fresh(g) && g.Valid() && g.Snapshot() == Snapshot()
    {
      g := new Frame(Snapshot());
    }
  }
}
