/**
 * The sidebar filter of the dashboard: the cleaned table narrowed by the
 * selected universities, an inclusive range of class hours and the selected
 * teaching modes, one boolean mask after another.
 */
module Filters {
  import opened Frames
  import Cleaning

  const UniversityCol: string := "高校名称"
  const ModeCol: string := "教学模式"

  /** One boolean mask: membership in a selection, or a class-hour range with both ends included. */
  datatype Criterion = InSet(col: string, sel: set<Cell>) | Between(col: string, lo: int, hi: int)

  /**
   * `df[col].isin(sel)` and `(df[col] >= lo) & (df[col] <= hi)` on one row; a
   * missing value is in no range.
   */
  predicate Holds(r: Row, c: Criterion) {
    match c
    case InSet(col, sel) => col in r && r[col] in sel
    case Between(col, lo, hi) => col in r && r[col].Num? && lo as real <= r[col].x <= hi as real
  }

  /** The row passes every criterion of `cs`. */
  predicate Matches(r: Row, cs: seq<Criterion>) {
    forall k :: 0 <= k < |cs| ==> Holds(r, cs[k])
  }

  /** The rows passing every criterion of `cs`, in their original order. */
  function Keep(rows: seq<Row>, cs: seq<Criterion>): (kept: seq<Row>)
    ensures |kept| <= |rows|
    ensures forall k :: 0 <= k < |kept| ==> kept[k] in rows && Matches(kept[k], cs)
  {
    if rows == [] then []
    else
      var n := |rows| - 1;
      var rest := Keep(rows[..n], cs);
      assert forall k :: 0 <= k < |rest| ==> rest[k] in rows by {
        forall k | 0 <= k < |rest| ensures rest[k] in rows {
          var j :| 0 <= j < n && rows[..n][j] == rest[k];
          assert rows[j] == rest[k];
        }
      }
      rest + (if Matches(rows[n], cs) then [rows[n]] else [])
  }

  /** A row is kept exactly when it is one of the rows and passes every criterion. */
  lemma {:induction false} KeepMembers(rows: seq<Row>, cs: seq<Criterion>, r: Row)
    ensures r in Keep(rows, cs) <==> r in rows && Matches(r, cs)
  {
    if rows != [] {
      var n := |rows| - 1;
      KeepMembers(rows[..n], cs, r);
      assert rows == rows[..n] + [rows[n]];
    }
  }

  /** Every copy of a matching row is kept, and no copy of any other row. */
  lemma {:induction false} KeepCount(rows: seq<Row>, cs: seq<Criterion>, r: Row)
    ensures multiset(Keep(rows, cs))[r] == if Matches(r, cs) then multiset(rows)[r] else 0
  {
    if rows != [] {
      var n := |rows| - 1;
      KeepCount(rows[..n], cs, r);
      assert rows == rows[..n] + [rows[n]];
    }
  }

  /** `a` is `b` with some rows removed, the rest in the same order. */
  predicate Subsequence(a: seq<Row>, b: seq<Row>)
    decreases |b|
  {
    if a == [] then true
    else if b == [] then false
    else if a[|a| - 1] == b[|b| - 1] then Subsequence(a[..|a| - 1], b[..|b| - 1])
    else Subsequence(a, b[..|b| - 1])
  }

  /** The kept rows are an order-preserving subsequence of the input. */
  lemma {:induction false} KeepSubsequence(rows: seq<Row>, cs: seq<Criterion>)
    ensures Subsequence(Keep(rows, cs), rows)
  {
    if rows != [] {
      var n := |rows| - 1;
      KeepSubsequence(rows[..n], cs);
      var rest := Keep(rows[..n], cs);
      assert rows[..n] + [rows[n]] == rows;
      if Matches(rows[n], cs) {
        assert Keep(rows, cs) == rest + [rows[n]];
        assert (rest + [rows[n]])[..|rest|] == rest;
      } else {
        assert Keep(rows, cs) == rest;
        SubsequenceSnoc(rest, rows[..n], rows[n]);
      }
    }
  }

  /** A subsequence of `b` is a subsequence of `b` extended by one row. */
  lemma {:induction false} SubsequenceSnoc(a: seq<Row>, b: seq<Row>, x: Row)
    requires Subsequence(a, b)
    ensures Subsequence(a, b + [x])
    decreases |b|, 1
  {
    assert (b + [x])[..|b|] == b;
    if a != [] && a[|a| - 1] == x {
      SubsequenceDrop(a, b);
    }
  }

  /** Dropping the last row of a subsequence leaves a subsequence. */
  lemma {:induction false} SubsequenceDrop(a: seq<Row>, b: seq<Row>)
    requires a != [] && Subsequence(a, b)
    ensures Subsequence(a[..|a| - 1], b)
    decreases |b|, 0
  {
    var p := a[..|a| - 1];
    var q := b[..|b| - 1];
    assert q + [b[|b| - 1]] == b;
    if a[|a| - 1] == b[|b| - 1] {
      SubsequenceSnoc(p, q, b[|b| - 1]);
    } else {
      SubsequenceDrop(a, q);
      SubsequenceSnoc(p, q, b[|b| - 1]);
    }
  }

  /** Passing `a + b` is passing `a` and passing `b`. */
  lemma MatchesAppend(r: Row, a: seq<Criterion>, b: seq<Criterion>)
    ensures Matches(r, a + b) <==> Matches(r, a) && Matches(r, b)
  {
    assert forall k :: 0 <= k < |a| ==> (a + b)[k] == a[k];
    assert forall k :: 0 <= k < |b| ==> (a + b)[|a| + k] == b[k];
  }

  /** Passing a single criterion is holding it. */
  lemma MatchesOne(r: Row, c: Criterion)
    ensures Matches(r, [c]) <==> Holds(r, c)
  {
    assert [c][0] == c;
  }

  /** Masking the kept rows again by `c` is keeping the rows that pass `cs` and then `c`. */
  lemma {:induction false} KeepThen(rows: seq<Row>, cs: seq<Criterion>, c: Criterion)
    ensures Keep(Keep(rows, cs), [c]) == Keep(rows, cs + [c])
  {
    if rows != [] {
      var n := |rows| - 1;
      KeepThen(rows[..n], cs, c);
      var rest := Keep(rows[..n], cs);
      var x := rows[n];
      MatchesAppend(x, cs, [c]);
      MatchesOne(x, c);
      if Matches(x, cs) {
        assert Keep(rows, cs) == rest + [x];
        assert (rest + [x])[..|rest|] == rest;
        assert Keep(rest + [x], [c]) == Keep(rest, [c]) + (if Matches(x, [c]) then [x] else []);
      } else {
        assert Keep(rows, cs) == rest;
      }
    }
  }

  /** Filtering the kept rows with the same criteria changes nothing. */
  lemma {:induction false} KeepIdempotent(rows: seq<Row>, cs: seq<Criterion>)
    ensures Keep(Keep(rows, cs), cs) == Keep(rows, cs)
  {
    if rows != [] {
      var n := |rows| - 1;
      KeepIdempotent(rows[..n], cs);
      var rest := Keep(rows[..n], cs);
      if Matches(rows[n], cs) {
        assert Keep(rows, cs) == rest + [rows[n]];
        assert (rest + [rows[n]])[..|rest|] == rest;
        assert Keep(rest + [rows[n]], cs) == Keep(rest, cs) + [rows[n]];
      } else {
        assert Keep(rows, cs) == rest;
      }
    }
  }

  /** No criterion keeps every row. */
  lemma {:induction false} KeepNone(rows: seq<Row>)
    ensures Keep(rows, []) == rows
  {
    if rows != [] {
      KeepNone(rows[..|rows| - 1]);
      assert rows[..|rows| - 1] + [rows[|rows| - 1]] == rows;
    }
  }

  /** Every kept row has the columns of the input. */
  lemma KeepKeys(rows: seq<Row>, cs: seq<Criterion>, keys: set<string>)
    requires HasKeys(rows, keys)
    ensures HasKeys(Keep(rows, cs), keys)
  {
    var kept := Keep(rows, cs);
    forall k | 0 <= k < |kept| ensures kept[k].Keys == keys {
      var j :| 0 <= j < |rows| && rows[j] == kept[k];
    }
  }

  /** The table with the rows of `f` that pass every criterion of `cs`, the same columns kept. */
  function Where(f: Frame, cs: seq<Criterion>): (g: Frame)
    requires f.Valid()
    ensures g.Valid() && g.cols.Keys == f.cols.Keys && g.n <= f.n
  {
    KeepKeys(Rows(f), cs, f.cols.Keys);
    FromRows(f.cols.Keys, Keep(Rows(f), cs))
  }

  /** The rows of `Where(f, cs)` are the kept rows of `f`. */
  lemma WhereRows(f: Frame, cs: seq<Criterion>)
    requires f.Valid()
    ensures Rows(Where(f, cs)) == Keep(Rows(f), cs)
  {
    KeepKeys(Rows(f), cs, f.cols.Keys);
    RowsOfFromRows(f.cols.Keys, Keep(Rows(f), cs));
  }

  /** Applying one more mask to a filtered table is filtering once with both. */
  lemma WhereThen(f: Frame, cs: seq<Criterion>, c: Criterion)
    requires f.Valid()
    ensures Where(Where(f, cs), [c]) == Where(f, cs + [c])
  {
    WhereRows(f, cs);
    KeepThen(Rows(f), cs, c);
  }

  /** The masks the sidebar applies, in order, given the selections and the hour range. */
  function Active(df: Frame, unis: set<Cell>, lo: int, hi: int, modes: set<Cell>): seq<Criterion> {
    Guard(unis != {}, InSet(UniversityCol, unis))
    + Guard(Cleaning.HoursCol in df.cols, Between(Cleaning.HoursCol, lo, hi))
    + Guard(ModeCol in df.cols && modes != {}, InSet(ModeCol, modes))
  }

  /** The mask `c` when its guard holds, else none. */
  function Guard(on: bool, c: Criterion): seq<Criterion> {
    if on then [c] else []
  }

  /** The hour column holds no strings, so comparing it with the range is defined. */
  predicate Comparable(df: Frame)
    requires df.Valid()
  {
    Cleaning.HoursCol in df.cols ==> forall i :: 0 <= i < df.n ==> !df.cols[Cleaning.HoursCol][i].Str?
  }

  /**
   * The filter chain: start from the whole table, then mask by university
   * when some university is selected, by the hour range when the table has
   * class hours, and by teaching mode when the table has it and some mode is
   * selected.
   */
  method ApplyFilters(df: Frame, unis: set<Cell>, lo: int, hi: int, modes: set<Cell>) returns (out: Frame)
    requires df.Valid() && UniversityCol in df.cols && Comparable(df)
    ensures out == Where(df, Active(df, unis, lo, hi, modes))
  {
    WhereNone(df);
    ghost var cs1, cs2, cs3;
    out, cs1 := Mask(df, [], df, unis != {}, InSet(UniversityCol, unis));
    out, cs2 := Mask(df, cs1, out, Cleaning.HoursCol in df.cols, Between(Cleaning.HoursCol, lo, hi));
    out, cs3 := Mask(df, cs2, out, ModeCol in df.cols && modes != {}, InSet(ModeCol, modes));
    assert cs1 == Guard(unis != {}, InSet(UniversityCol, unis));
  }

  /** One guarded step of the chain: `if on: df = df[mask]`, over the rows `cs` already kept. */
  method Mask(df: Frame, ghost cs: seq<Criterion>, cur: Frame, on: bool, c: Criterion)
    returns (next: Frame, ghost cs': seq<Criterion>)
    requires df.Valid() && cur == Where(df, cs)
    ensures cs' == cs + Guard(on, c)
    ensures next == Where(df, cs')
  {
    next, cs' := cur, cs;
    if on {
      WhereThen(df, cs, c);
      next := Where(cur, [c]);
      cs' := cs + [c];
    } else {
      assert cs + [] == cs;
    }
  }

  /** Filtering by no criterion gives back the table. */
  lemma WhereNone(df: Frame)
    requires df.Valid()
    ensures Where(df, []) == df
  {
    KeepNone(Rows(df));
    FromRowsOfRows(df);
  }

  /**
   * The reference reading of the sidebar: a row is shown when its university
   * is selected or no university is, its class hours lie in `[lo, hi]` ends
   * included (when the table has class hours), and its mode is selected or
   * no mode is (when the table has modes).
   */
  predicate Admitted(r: Row, keys: set<string>, unis: set<Cell>, lo: int, hi: int, modes: set<Cell>) {
    && (unis == {} || (UniversityCol in r && r[UniversityCol] in unis))
    && (Cleaning.HoursCol in keys ==>
          Cleaning.HoursCol in r && r[Cleaning.HoursCol].Num? && lo as real <= r[Cleaning.HoursCol].x <= hi as real)
    && (ModeCol !in keys || modes == {} || (ModeCol in r && r[ModeCol] in modes))
  }

  lemma ActiveMeaning(df: Frame, unis: set<Cell>, lo: int, hi: int, modes: set<Cell>, r: Row)
    ensures Matches(r, Active(df, unis, lo, hi, modes)) <==> Admitted(r, df.cols.Keys, unis, lo, hi, modes)
  {
    var a := if unis != {} then [InSet(UniversityCol, unis)] else [];
    var b := if Cleaning.HoursCol in df.cols then [Between(Cleaning.HoursCol, lo, hi)] else [];
    var c := if ModeCol in df.cols && modes != {} then [InSet(ModeCol, modes)] else [];
    MatchesAppend(r, a + b, c);
    MatchesAppend(r, a, b);
    MatchesOne(r, InSet(UniversityCol, unis));
    MatchesOne(r, Between(Cleaning.HoursCol, lo, hi));
    MatchesOne(r, InSet(ModeCol, modes));
  }

  /**
   * The filtered table keeps exactly the admitted rows, in their original
   * order, with every column kept.
   */
  lemma ApplyFiltersMeaning(df: Frame, unis: set<Cell>, lo: int, hi: int, modes: set<Cell>, r: Row)
    requires df.Valid()
    ensures Where(df, Active(df, unis, lo, hi, modes)).cols.Keys == df.cols.Keys
    ensures r in Rows(Where(df, Active(df, unis, lo, hi, modes))) <==>
      r in Rows(df) && Admitted(r, df.cols.Keys, unis, lo, hi, modes)
    ensures Subsequence(Rows(Where(df, Active(df, unis, lo, hi, modes))), Rows(df))
  {
    var cs := Active(df, unis, lo, hi, modes);
    WhereRows(df, cs);
    KeepMembers(Rows(df), cs, r);
    ActiveMeaning(df, unis, lo, hi, modes, r);
    KeepSubsequence(Rows(df), cs);
  }

  /** Filtering the filtered table again with the same selections changes nothing. */
  lemma ApplyFiltersIdempotent(df: Frame, unis: set<Cell>, lo: int, hi: int, modes: set<Cell>)
    requires df.Valid()
    ensures Where(Where(df, Active(df, unis, lo, hi, modes)), Active(Where(df, Active(df, unis, lo, hi, modes)), unis, lo, hi, modes))
         == Where(df, Active(df, unis, lo, hi, modes))
  {
    var cs := Active(df, unis, lo, hi, modes);
    var g := Where(df, cs);
    assert Active(g, unis, lo, hi, modes) == cs;
    WhereRows(df, cs);
    WhereRows(g, cs);
    KeepIdempotent(Rows(df), cs);
    KeepKeys(Rows(df), cs, df.cols.Keys);
  }

  /** With nothing selected and no hour or mode column the table passes unchanged. */
  lemma NoSelectionNoFilter(df: Frame, lo: int, hi: int)
    requires df.Valid() && Cleaning.HoursCol !in df.cols
    ensures Where(df, Active(df, {}, lo, hi, {})) == df
  {
    assert Active(df, {}, lo, hi, {}) == [];
    KeepNone(Rows(df));
    FromRowsOfRows(df);
  }
}
