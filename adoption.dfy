/**
 * The adoption ratios of `analyze_teaching_methods`: for each of the four
 * teaching practices whose flag column is present, in a fixed order, the
 * percentage of courses whose flag is `"是"`.
 */
module Adoption {
  import opened Wrappers
  import opened Frames
  import Cleaning

  /** The four practices, in the order the table lists them. */
  datatype Practice = Flipped | Software | Proposal | Defense

  const Practices: seq<Practice> := [Flipped, Software, Proposal, Defense]

  /** The position of a practice in the fixed order. */
  function Rank(p: Practice): nat {
    match p
    case Flipped => 0
    case Software => 1
    case Proposal => 2
    case Defense => 3
  }

  /** The name a practice has in the table. */
  function Label(p: Practice): string {
    match p
    case Flipped => "翻转课堂"
    case Software => "软件实操"
    case Proposal => "开题报告"
    case Defense => "课程答辩"
  }

  /** The flag column a practice is read from: the flag columns of the cleaner, in their order. */
  function Column(p: Practice): (name: string)
    ensures name == Cleaning.FlagCols[Rank(p)]
  {
    match p
    case Flipped => "是否翻转课堂"
    case Software => "是否有软件实操"
    case Proposal => "是否有开题报告"
    case Defense => "是否有答辩"
  }

  /** The flag value that counts as adopted. */
  const Adopted: Cell := Str("是")

  /** The number of cells equal to `"是"`. */
  function CountYes(col: seq<Cell>): (k: nat)
    ensures k <= |col|
  {
    if col == [] then 0
    else CountYes(col[..|col| - 1]) + (if col[|col| - 1] == Adopted then 1 else 0)
  }

  /** Every cell is `"是"` exactly when all of them are counted. */
  lemma {:induction false} CountYesAll(col: seq<Cell>)
    ensures CountYes(col) == |col| <==> forall i :: 0 <= i < |col| ==> col[i] == Adopted
  {
    if col != [] {
      var p := col[..|col| - 1];
      CountYesAll(p);
      if CountYes(col) == |col| {
        assert CountYes(p) == |p|;
        forall i | 0 <= i < |col| ensures col[i] == Adopted {
          if i < |p| {
            assert col[i] == p[i];
          }
        }
      }
      if forall i :: 0 <= i < |col| ==> col[i] == Adopted {
        assert forall i :: 0 <= i < |p| ==> p[i] == col[i];
      }
    }
  }

  /** No cell is `"是"` exactly when none is counted. */
  lemma {:induction false} CountYesNone(col: seq<Cell>)
    ensures CountYes(col) == 0 <==> forall i :: 0 <= i < |col| ==> col[i] != Adopted
  {
    if col != [] {
      var p := col[..|col| - 1];
      CountYesNone(p);
      if CountYes(col) == 0 {
        forall i | 0 <= i < |col| ensures col[i] != Adopted {
          if i < |p| {
            assert col[i] == p[i];
          }
        }
      }
      if forall i :: 0 <= i < |col| ==> col[i] != Adopted {
        assert forall i :: 0 <= i < |p| ==> p[i] == col[i];
      }
    }
  }

  /**
   * `(col == '是').mean() * 100`: undefined (a NaN in the source) for an empty
   * column, else the percentage of `"是"` cells.
   */
  function Ratio(col: seq<Cell>): (r: Option<real>)
    ensures r.None? <==> col == []
    ensures r.Some? ==> r.value * |col| as real == 100.0 * CountYes(col) as real
    ensures r.Some? ==> 0.0 <= r.value <= 100.0
  {
    if col == [] then None
    else Some(CountYes(col) as real / |col| as real * 100.0)
  }

  /** The ratio is 100 exactly when every course adopts the practice, and 0 exactly when none does. */
  lemma RatioExtremes(col: seq<Cell>)
    requires col != []
    ensures Ratio(col) == Some(100.0) <==> forall i :: 0 <= i < |col| ==> col[i] == Adopted
    ensures Ratio(col) == Some(0.0) <==> forall i :: 0 <= i < |col| ==> col[i] != Adopted
  {
    CountYesAll(col);
    CountYesNone(col);
    var n := |col| as real;
    var k := CountYes(col) as real;
    var r := Ratio(col).value;
    assert r * n == 100.0 * k;
    assert r == 100.0 <==> k == n by {
      if r == 100.0 { assert 100.0 * n == 100.0 * k; }
      if k == n { assert r * n == 100.0 * n; }
    }
    assert r == 0.0 <==> k == 0.0 by {
      if k == 0.0 { assert r * n == 0.0; }
    }
  }

  /** One row of the table: the practice and its ratio. */
  datatype MethodRow = MethodRow(practice: Practice, ratio: Option<real>)

  /** The row of one practice: present exactly when its column is. */
  function RowOf(df: Frame, p: Practice): seq<MethodRow>
    requires df.Valid()
  {
    if Column(p) in df.cols then [MethodRow(p, Ratio(df.cols[Column(p)]))] else []
  }

  /** The rows for the practices of `ps` whose column is present, in the order of `ps`. */
  function RowsFor(df: Frame, ps: seq<Practice>): seq<MethodRow>
    requires df.Valid()
  {
    if ps == [] then [] else RowOf(df, ps[0]) + RowsFor(df, ps[1..])
  }

  /** The table `analyze_teaching_methods` returns. */
  function MethodTable(df: Frame): seq<MethodRow>
    requires df.Valid()
  {
    RowsFor(df, Practices)
  }

  /** Appends the row of `p` when its column is present. */
  method AddRow(df: Frame, rows: seq<MethodRow>, p: Practice) returns (rows': seq<MethodRow>)
    requires df.Valid()
    ensures rows' == rows + RowOf(df, p)
  {
    rows' := rows;
    if Column(p) in df.cols {
      var ratio := Ratio(df.cols[Column(p)]);
      rows' := rows' + [MethodRow(p, ratio)];
    }
  }

  /** `analyze_teaching_methods`: four guarded appends, in the fixed order. */
  method AnalyzeTeachingMethods(df: Frame) returns (rows: seq<MethodRow>)
    requires df.Valid()
    ensures rows == MethodTable(df)
  {
    rows := [];
    rows := AddRow(df, rows, Flipped);
    rows := AddRow(df, rows, Software);
    rows := AddRow(df, rows, Proposal);
    rows := AddRow(df, rows, Defense);
    MethodTableParts(df);
  }

  /** The table is the four single-practice rows one after the other. */
  lemma MethodTableParts(df: Frame)
    requires df.Valid()
    ensures MethodTable(df) == [] + RowOf(df, Flipped) + RowOf(df, Software) + RowOf(df, Proposal) + RowOf(df, Defense)
  {
    var t := [Defense];
    assert RowsFor(df, t) == RowOf(df, Defense) by { assert t[1..] == []; }
    var u := [Proposal, Defense];
    assert RowsFor(df, u) == RowOf(df, Proposal) + RowOf(df, Defense) by { assert u[1..] == t; }
    var v := [Software, Proposal, Defense];
    assert RowsFor(df, v) == RowOf(df, Software) + RowsFor(df, u) by { assert v[1..] == u; }
    assert Practices[1..] == v;
  }

  /** The practices of `ps` that contribute a row, and each row's ratio read from its column. */
  lemma {:induction false} RowsForFacts(df: Frame, ps: seq<Practice>)
    requires df.Valid()
    ensures forall i :: 0 <= i < |RowsFor(df, ps)| ==>
      RowsFor(df, ps)[i].practice in ps && Column(RowsFor(df, ps)[i].practice) in df.cols
      && RowsFor(df, ps)[i].ratio == Ratio(df.cols[Column(RowsFor(df, ps)[i].practice)])
    ensures forall p :: p in ps && Column(p) in df.cols ==>
      exists i :: 0 <= i < |RowsFor(df, ps)| && RowsFor(df, ps)[i].practice == p
  {
    if ps != [] {
      RowsForFacts(df, ps[1..]);
      var rest := RowsFor(df, ps[1..]);
      var r := RowsFor(df, ps);
      if Column(ps[0]) in df.cols {
        assert r == [MethodRow(ps[0], Ratio(df.cols[Column(ps[0])]))] + rest;
        forall p | p in ps && Column(p) in df.cols
          ensures exists i :: 0 <= i < |r| && r[i].practice == p
        {
          if p == ps[0] {
            assert r[0].practice == p;
          } else {
            assert p in ps[1..];
            var i :| 0 <= i < |rest| && rest[i].practice == p;
            assert r[i + 1].practice == p;
          }
        }
      } else {
        assert r == rest;
        forall p | p in ps && Column(p) in df.cols
          ensures exists i :: 0 <= i < |r| && r[i].practice == p
        {
          assert p in ps[1..];
          var i :| 0 <= i < |rest| && rest[i].practice == p;
          assert r[i].practice == p;
        }
      }
    }
  }

  /** Every row is for a practice of `ps`. */
  lemma {:induction false} RowsForIn(df: Frame, ps: seq<Practice>)
    requires df.Valid()
    ensures forall i :: 0 <= i < |RowsFor(df, ps)| ==> RowsFor(df, ps)[i].practice in ps
  {
    if ps != [] {
      RowsForIn(df, ps[1..]);
      var rest := RowsFor(df, ps[1..]);
      assert RowsFor(df, ps) == RowOf(df, ps[0]) + rest;
      forall i | 0 <= i < |RowsFor(df, ps)| ensures RowsFor(df, ps)[i].practice in ps {
        if i >= |RowOf(df, ps[0])| {
          assert RowsFor(df, ps)[i] == rest[i - |RowOf(df, ps[0])|];
        }
      }
    }
  }

  /** Rows keep the order of `ps` when `ps` is in rank order. */
  lemma {:induction false} RowsForOrder(df: Frame, ps: seq<Practice>)
    requires df.Valid()
    requires forall i, j :: 0 <= i < j < |ps| ==> Rank(ps[i]) < Rank(ps[j])
    ensures forall i, j :: 0 <= i < j < |RowsFor(df, ps)| ==>
      Rank(RowsFor(df, ps)[i].practice) < Rank(RowsFor(df, ps)[j].practice)
  {
    if ps != [] {
      var t := ps[1..];
      assert forall i, j :: 0 <= i < j < |t| ==> Rank(t[i]) < Rank(t[j]) by {
        forall i, j | 0 <= i < j < |t| ensures Rank(t[i]) < Rank(t[j]) {
          assert t[i] == ps[i + 1] && t[j] == ps[j + 1];
        }
      }
      RowsForOrder(df, t);
      RowsForIn(df, t);
      var rest := RowsFor(df, t);
      forall k | 0 <= k < |rest| ensures Rank(ps[0]) < Rank(rest[k].practice) {
        var m :| 0 <= m < |t| && t[m] == rest[k].practice;
        assert t[m] == ps[m + 1];
      }
    }
  }

  /**
   * The table lists exactly the practices whose flag column is present, in the
   * fixed order 翻转课堂, 软件实操, 开题报告, 课程答辩, each with the ratio of its
   * column; that ratio lies in [0, 100] and is undefined exactly when the table
   * has no rows.
   */
  lemma MethodTableFacts(df: Frame)
    requires df.Valid()
    ensures forall i, j :: 0 <= i < j < |MethodTable(df)| ==>
      Rank(MethodTable(df)[i].practice) < Rank(MethodTable(df)[j].practice)
    ensures forall p :: Column(p) in df.cols <==>
      exists i :: 0 <= i < |MethodTable(df)| && MethodTable(df)[i].practice == p
    ensures forall i :: 0 <= i < |MethodTable(df)| ==>
      MethodTable(df)[i].ratio == Ratio(df.cols[Column(MethodTable(df)[i].practice)])
    ensures forall i :: 0 <= i < |MethodTable(df)| ==>
      (MethodTable(df)[i].ratio.None? <==> df.n == 0)
  {
    var t := MethodTable(df);
    assert t == RowsFor(df, Practices);
    RowsForFacts(df, Practices);
    RowsForOrder(df, Practices);
    forall p | Column(p) in df.cols ensures exists i :: 0 <= i < |t| && t[i].practice == p {
      assert Practices[Rank(p)] == p;
    }
  }
}
