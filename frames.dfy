/**
 * The survey table as the cleaning code sees a pandas DataFrame: named columns of
 * equal length whose cells are missing (NaN), a number or a string.
 */
module Frames {

  /** One DataFrame cell. */
  datatype Cell = Missing | Num(x: real) | Str(s: string)

  /** `n` rows; `cols` maps each column name to its cells, top to bottom. */
  datatype Frame = Frame(n: nat, cols: map<string, seq<Cell>>) {
    predicate Valid() {
      forall c :: c in cols ==> |cols[c]| == n
    }
  }

  /** One row, keyed by column name. */
  type Row = map<string, Cell>

  function RowAt(f: Frame, i: nat): (r: Row)
    requires f.Valid() && i < f.n
    ensures r.Keys == f.cols.Keys
  {
    map c | c in f.cols :: f.cols[c][i]
  }

  /** The rows of `f`, in order. */
  function Rows(f: Frame): (rows: seq<Row>)
    requires f.Valid()
    ensures |rows| == f.n
    ensures forall i :: 0 <= i < |rows| ==> rows[i].Keys == f.cols.Keys
  {
    seq(f.n, i requires 0 <= i < f.n && f.Valid() => RowAt(f, i))
  }

  predicate HasKeys(rows: seq<Row>, keys: set<string>) {
    forall i :: 0 <= i < |rows| ==> rows[i].Keys == keys
  }

  /** The frame with columns `keys` whose rows are `rows`. */
  function FromRows(keys: set<string>, rows: seq<Row>): (f: Frame)
    requires HasKeys(rows, keys)
    ensures f.Valid() && f.n == |rows| && f.cols.Keys == keys
  {
    Frame(|rows|, map c | c in keys :: seq(|rows|, i requires 0 <= i < |rows| && HasKeys(rows, keys) => rows[i][c]))
  }

  /** Building a frame from rows and reading its rows back gives the same rows. */
  lemma RowsOfFromRows(keys: set<string>, rows: seq<Row>)
    requires HasKeys(rows, keys)
    ensures Rows(FromRows(keys, rows)) == rows
  {
    var f := FromRows(keys, rows);
    forall i | 0 <= i < |rows| ensures Rows(f)[i] == rows[i] {
      assert RowAt(f, i) == rows[i];
    }
  }

  /** A frame is rebuilt exactly from its own rows. */
  lemma FromRowsOfRows(f: Frame)
    requires f.Valid()
    ensures FromRows(f.cols.Keys, Rows(f)) == f
  {
    var g := FromRows(f.cols.Keys, Rows(f));
    forall c | c in f.cols ensures g.cols[c] == f.cols[c] {
      assert |g.cols[c]| == |f.cols[c]|;
      forall i | 0 <= i < f.n ensures g.cols[c][i] == f.cols[c][i] {
        assert Rows(f)[i] == RowAt(f, i);
      }
    }
  }

  /** Column `c` read off a sequence of rows, top to bottom; a row without `c` reads as missing. */
  function ColumnOf(rows: seq<Row>, c: string): (col: seq<Cell>)
    ensures |col| == |rows|
    ensures forall i :: 0 <= i < |rows| && c in rows[i] ==> col[i] == rows[i][c]
  {
    seq(|rows|, i requires 0 <= i < |rows| => if c in rows[i] then rows[i][c] else Missing)
  }

  /** One more row adds its cell at the bottom of the column. */
  lemma ColumnOfSnoc(rows: seq<Row>, x: Row, c: string)
    requires c in x
    ensures ColumnOf(rows + [x], c) == ColumnOf(rows, c) + [x[c]]
  {
    var l := ColumnOf(rows + [x], c);
    var r := ColumnOf(rows, c) + [x[c]];
    forall i | 0 <= i < |l| ensures l[i] == r[i] {
      if i < |rows| { assert (rows + [x])[i] == rows[i]; }
    }
  }

  /** Reading a column off the rows of a table gives that column. */
  lemma ColumnOfRows(f: Frame, c: string)
    requires f.Valid() && c in f.cols
    ensures ColumnOf(Rows(f), c) == f.cols[c]
  {
    forall i | 0 <= i < f.n ensures ColumnOf(Rows(f), c)[i] == f.cols[c][i] {
      assert Rows(f)[i] == RowAt(f, i);
    }
  }

  /** A column of a table rebuilt from rows is that column read off the rows. */
  lemma ColumnOfFromRows(keys: set<string>, rows: seq<Row>, c: string)
    requires HasKeys(rows, keys) && c in keys
    ensures FromRows(keys, rows).cols[c] == ColumnOf(rows, c)
  {
  }

  /** Every cell of `col` is missing or a string: what `str.strip()` can be called on. */
  predicate TextCells(col: seq<Cell>) {
    forall i :: 0 <= i < |col| ==> !col[i].Num?
  }
}
