/**
 * The row normaliser `preprocess_data`: it copies the survey table and rewrites its
 * columns one group at a time (numbers, the grading-weight text, yes/no flags, free
 * text, categories) and finally adds the class-hour tier.
 */
module Cleaning {
  import opened Wrappers
  import opened Strings
  import opened Numerals
  import opened Frames
  import Stats

  const CreditCol: string := "学分"
  const HoursCol: string := "学时"
  const SizeCol: string := "课堂规模"
  const NumericCols: seq<string> := [CreditCol, HoursCol, SizeCol]

  const WeightTextCol: string := "平时/期末权重"
  const UsualWeightCol: string := "平时权重"
  const FinalWeightCol: string := "期末权重"

  const FlagCols: seq<string> := ["是否翻转课堂", "是否有软件实操", "是否有开题报告", "是否有答辩"]
  const TextCols: seq<string> := ["特色做法", "核心教材", "软件工具", "考核内容"]
  const CategoryCols: seq<string> := ["教学模式", "面向层次"]
  const TierCol: string := "学时分层"

  /** The markers written into empty free-text and categorical cells. */
  const NotProvided: string := "未提供"
  const Unknown: string := "未知"

  // ---------------------------------------------------------------------------
  // Numbers: `pd.to_numeric(errors='coerce')`, then `fillna(median)`

  /** A cell as `pd.to_numeric(..., errors='coerce')` sees it; `None` is NaN. */
  function ToNumber(c: Cell): Option<real> {
    match c
    case Missing => None
    case Num(x) => Some(x)
    case Str(s) => ParseNumber(s)
  }

  /** The numbers of a column, in order, leaving out the cells that do not parse. */
  function NumbersOf(col: seq<Cell>): (vs: seq<real>)
    ensures |vs| <= |col|
    ensures |vs| == 0 <==> forall i :: 0 <= i < |col| ==> ToNumber(col[i]).None?
  {
    if col == [] then []
    else
      var rest := NumbersOf(col[1..]);
      assert forall i :: 1 <= i < |col| ==> col[i] == col[1..][i - 1];
      match ToNumber(col[0])
      case Some(v) => [v] + rest
      case None => rest
  }

  /** A single cell contributes its number when it parses, and nothing otherwise. */
  lemma NumbersOfOne(c: Cell)
    ensures NumbersOf([c]) == if ToNumber(c).Some? then [ToNumber(c).value] else []
  {
    assert [c][1..] == [];
  }

  /** The numbers of two stacked columns are the numbers of the first followed by those of the second. */
  lemma {:induction false} NumbersOfAppend(a: seq<Cell>, b: seq<Cell>)
    ensures NumbersOf(a + b) == NumbersOf(a) + NumbersOf(b)
  {
    if a == [] {
      assert a + b == b;
    } else {
      var t := a[1..];
      assert a == [a[0]] + t;
      assert a + b == [a[0]] + (t + b);
      NumbersOfAppend(t, b);
      NumbersOfCons(a[0], t);
      NumbersOfCons(a[0], t + b);
    }
  }

  /** The numbers of a column with one more cell on top. */
  lemma NumbersOfCons(c: Cell, t: seq<Cell>)
    ensures NumbersOf([c] + t) == (if ToNumber(c).Some? then [ToNumber(c).value] else []) + NumbersOf(t)
  {
    assert ([c] + t)[1..] == t;
    assert ([c] + t)[0] == c;
  }

  /** A value is among the numbers of a column exactly when some cell parses to it. */
  lemma {:induction false} NumbersOfMembers(col: seq<Cell>, v: real)
    ensures v in NumbersOf(col) <==> exists i :: 0 <= i < |col| && ToNumber(col[i]) == Some(v)
  {
    if col != [] {
      NumbersOfMembers(col[1..], v);
      if exists i :: 0 <= i < |col| && ToNumber(col[i]) == Some(v) {
        var i :| 0 <= i < |col| && ToNumber(col[i]) == Some(v);
        if i > 0 {
          assert col[1..][i - 1] == col[i];
        }
      }
      if exists i :: 0 <= i < |col[1..]| && ToNumber(col[1..][i]) == Some(v) {
        var i :| 0 <= i < |col[1..]| && ToNumber(col[1..][i]) == Some(v);
        assert col[i + 1] == col[1..][i];
      }
    }
  }

  /**
   * The value missing cells are filled with: the median of the column's numbers,
   * or 0 when the column has none.
   */
  function FillValue(col: seq<Cell>): (m: real)
    ensures |NumbersOf(col)| == 0 ==> m == 0.0
    ensures |NumbersOf(col)| > 0 ==>
      && 2 * Stats.CountAtMost(NumbersOf(col), m) >= |NumbersOf(col)|
      && 2 * Stats.CountAtLeast(NumbersOf(col), m) >= |NumbersOf(col)|
  {
    var vs := NumbersOf(col);
    if |vs| == 0 then 0.0
    else
      Stats.MedianHalves(vs);
      Stats.Median(vs)
  }

  /**
   * A numeric column after cleaning: the same number of cells, every one a number;
   * a cell that parses keeps its value and every other cell holds the fill value.
   */
  function FillNumeric(col: seq<Cell>): (r: seq<Cell>)
    ensures |r| == |col|
    ensures forall i :: 0 <= i < |r| ==> r[i].Num?
    ensures forall i :: 0 <= i < |r| && ToNumber(col[i]).Some? ==> r[i] == Num(ToNumber(col[i]).value)
    ensures forall i :: 0 <= i < |r| && ToNumber(col[i]).None? ==> r[i] == Num(FillValue(col))
  {
    var m := FillValue(col);
    seq(|col|, i requires 0 <= i < |col| => Num(ToNumber(col[i]).GetOr(m)))
  }

  // ---------------------------------------------------------------------------
  // Grading weights: nested `extract_weight_from_text`

  /** The outcome of reading an `"A/B"` weight text: two integers, or the fallback. */
  datatype WeightParse = Parsed(usual: int, final: int) | Defaulted

  /** Cell values that mean "no weight given". */
  const WeightSentinels: seq<string> := ["0", "无", "", " "]

  /**
   * Reads a weight cell. Only a string with exactly one `/` whose two sides, once
   * trimmed, are integers is parsed; the values are taken as they are, in order.
   * The text of a number has no `/`, so a number cell always falls back.
   */
  function ParseWeight(c: Cell): (w: WeightParse)
    ensures w.Parsed? ==> c.Str? && c.s !in WeightSentinels && Count(c.s, '/') == 1
  {
    match c
    case Missing => Defaulted
    case Num(_) => Defaulted
    case Str(s) =>
      if s in WeightSentinels then Defaulted
      else
        var parts := Split(s, '/');
        if |parts| != 2 then Defaulted
        else
          match (ParseInt(Trim(parts[0])), ParseInt(Trim(parts[1])))
          case (Some(u), Some(f)) => Parsed(u, f)
          case _ => Defaulted
  }

  /** The `(usual, final)` pair the source returns, with `(50, 50)` as the fallback. */
  function WeightPair(c: Cell): (int, int) {
    match ParseWeight(c)
    case Parsed(u, f) => (u, f)
    case Defaulted => (50, 50)
  }

  /**
   * Writing two integers as `"A/B"`, with any white space around either number,
   * and reading the text back gives the two integers in order, whatever their values.
   */
  lemma WeightRoundTrip(u: int, f: int, p1: string, p2: string, p3: string, p4: string)
    requires AllSpace(p1) && AllSpace(p2) && AllSpace(p3) && AllSpace(p4)
    ensures ParseWeight(Str(p1 + IntText(u) + p2 + "/" + p3 + IntText(f) + p4)) == Parsed(u, f)
  {
    var a := p1 + IntText(u) + p2;
    var b := p3 + IntText(f) + p4;
    assert p1 + IntText(u) + p2 + "/" + p3 + IntText(f) + p4 == a + "/" + b;
    assert '/' !in a && '/' !in b by {
      assert '/' !in p1 && '/' !in p2 && '/' !in p3 && '/' !in p4 by {
        assert !IsSpace('/');
      }
    }
    WeightSides(a, b);
    TrimPadded(p1, IntText(u), p2);
    TrimPadded(p3, IntText(f), p4);
    ParseIntText(u);
    ParseIntText(f);
  }

  /** A text with one `/` is read side by side: each side, trimmed, must be an integer. */
  lemma WeightSides(a: string, b: string)
    requires '/' !in a && '/' !in b
    ensures ParseWeight(Str(a + "/" + b)) ==
      match (ParseInt(Trim(a)), ParseInt(Trim(b)))
      case (Some(u), Some(f)) => Parsed(u, f)
      case _ => Defaulted
  {
    var s := a + "/" + b;
    assert s == a + ['/'] + b;
    SplitPrefix(a, b, '/');
    SplitFree(b, '/');
    assert s !in WeightSentinels by {
      assert s[|a|] == '/';
    }
  }

  /** A text without exactly one `/` always falls back to `(50, 50)`. */
  lemma WeightNeedsOneSlash(s: string)
    requires Count(s, '/') != 1
    ensures WeightPair(Str(s)) == (50, 50)
  {
  }

  // ---------------------------------------------------------------------------
  // Yes/no flags: `bool_mapping.get(str(x).strip(), '否')` after `fillna('否')`

  datatype YesNo = Yes | No

  function FlagLabel(f: YesNo): string {
    match f
    case Yes => "是"
    case No => "否"
  }

  /** The exact-case spelling table of the source. */
  const FlagMapping: map<string, YesNo> := map[
    "是" := Yes, "有" := Yes, "yes" := Yes, "Yes" := Yes,
    "否" := No, "无" := No, "no" := No, "No" := No, "" := No]

  /**
   * A flag cell is yes exactly when it is a string that trims to one of the four
   * affirmative spellings; anything else (missing, `"YES"`, `"maybe"`) is no.
   */
  function NormalizeFlag(c: Cell): (f: YesNo)
    ensures f == Yes <==> c.Str? && Trim(c.s) in ["是", "有", "yes", "Yes"]
  {
    match c
    case Missing => FlagMapping[FlagLabel(No)]
    case Num(_) => No
    case Str(s) => var key := Trim(s); if key in FlagMapping then FlagMapping[key] else No
  }

  function FlagColumn(col: seq<Cell>): (r: seq<Cell>)
    ensures |r| == |col|
    ensures forall i :: 0 <= i < |r| ==> r[i] == Str(FlagLabel(NormalizeFlag(col[i])))
  {
    seq(|col|, i requires 0 <= i < |col| => Str(FlagLabel(NormalizeFlag(col[i]))))
  }

  /** A flag label reads back as the flag it names. */
  lemma FlagLabelFixed(f: YesNo)
    ensures NormalizeFlag(Str(FlagLabel(f))) == f
  {
    TrimOfTrimmed(FlagLabel(f));
  }

  // ---------------------------------------------------------------------------
  // Free text: `fillna('未提供')`, then `replace({'0': '未提供', '无': '未提供'})`;
  // categories: `fillna('未知')`

  /**
   * A free-text cell after cleaning is never missing and never one of the two
   * sentinels; a number or any other string passes through unchanged.
   */
  function FillText(c: Cell): (r: Cell)
    ensures r != Missing && r != Str("0") && r != Str("无")
    ensures c.Missing? || c == Str("0") || c == Str("无") ==> r == Str(NotProvided)
    ensures !c.Missing? && c != Str("0") && c != Str("无") ==> r == c
  {
    match c
    case Missing => Str(NotProvided)
    case Str(s) => if s == "0" || s == "无" then Str(NotProvided) else c
    case Num(_) => c
  }

  /** A categorical cell after cleaning is never missing; a present value is unchanged. */
  function FillUnknown(c: Cell): (r: Cell)
    ensures r != Missing
    ensures c != Missing ==> r == c
    ensures c == Missing ==> r == Str(Unknown)
  {
    if c.Missing? then Str(Unknown) else c
  }

  function MapText(col: seq<Cell>): (r: seq<Cell>)
    ensures |r| == |col| && forall i :: 0 <= i < |r| ==> r[i] == FillText(col[i])
  {
    seq(|col|, i requires 0 <= i < |col| => FillText(col[i]))
  }

  function MapUnknown(col: seq<Cell>): (r: seq<Cell>)
    ensures |r| == |col| && forall i :: 0 <= i < |r| ==> r[i] == FillUnknown(col[i])
  {
    seq(|col|, i requires 0 <= i < |col| => FillUnknown(col[i]))
  }

  // ---------------------------------------------------------------------------
  // Class-hour tier: `pd.cut(..., bins=[0, 32, 48, 100], right=False)`

  datatype HourTier = Short | Medium | Long

  function TierLabel(t: HourTier): string {
    match t
    case Short => "短学时(≤32)"
    case Medium => "中学时(33-48)"
    case Long => "长学时(>48)"
  }

  function TierRank(t: HourTier): nat {
    match t
    case Short => 0
    case Medium => 1
    case Long => 2
  }

  /**
   * The half-open bins `[0, 32)`, `[32, 48)`, `[48, 100)`; hours below 0 or at
   * least 100 fall in no bin.
   */
  function TierOf(h: real): (t: Option<HourTier>)
    ensures t.Some? <==> 0.0 <= h < 100.0
    ensures t == Some(Short) <==> 0.0 <= h < 32.0
    ensures t == Some(Medium) <==> 32.0 <= h < 48.0
    ensures t == Some(Long) <==> 48.0 <= h < 100.0
  {
    if 0.0 <= h < 32.0 then Some(Short)
    else if 32.0 <= h < 48.0 then Some(Medium)
    else if 48.0 <= h < 100.0 then Some(Long)
    else None
  }

  /** More hours never give a lower tier. */
  lemma TierMonotone(h1: real, h2: real)
    requires h1 <= h2 && TierOf(h1).Some? && TierOf(h2).Some?
    ensures TierRank(TierOf(h1).value) <= TierRank(TierOf(h2).value)
  {
  }

  /** The tier cell of a cleaned hours cell; NaN where no bin applies. */
  function TierCell(c: Cell): Cell {
    match c
    case Num(h) => (match TierOf(h) case Some(t) => Str(TierLabel(t)) case None => Missing)
    case _ => Missing
  }

  function TierColumn(hours: seq<Cell>): (r: seq<Cell>)
    ensures |r| == |hours| && forall i :: 0 <= i < |r| ==> r[i] == TierCell(hours[i])
  {
    seq(|hours|, i requires 0 <= i < |hours| => TierCell(hours[i]))
  }

  // ---------------------------------------------------------------------------
  // The whole normaliser

  /** What the normaliser needs: a well-formed table that has the weight-text column. */
  predicate Ready(raw: Frame) {
    raw.Valid() && WeightTextCol in raw.cols
  }

  /** The cleaning rule for a column of the given name; other columns are left alone. */
  function CleanCells(name: string, col: seq<Cell>): (r: seq<Cell>)
    ensures |r| == |col|
  {
    if name in NumericCols then FillNumeric(col)
    else if name in FlagCols then FlagColumn(col)
    else if name in TextCols then MapText(col)
    else if name in CategoryCols then MapUnknown(col)
    else col
  }

  function UsualColumn(weights: seq<Cell>): (r: seq<Cell>)
    ensures |r| == |weights| && forall i :: 0 <= i < |r| ==> r[i] == Num(WeightPair(weights[i]).0 as real)
  {
    seq(|weights|, i requires 0 <= i < |weights| => Num(WeightPair(weights[i]).0 as real))
  }

  function FinalColumn(weights: seq<Cell>): (r: seq<Cell>)
    ensures |r| == |weights| && forall i :: 0 <= i < |r| ==> r[i] == Num(WeightPair(weights[i]).1 as real)
  {
    seq(|weights|, i requires 0 <= i < |weights| => Num(WeightPair(weights[i]).1 as real))
  }

  /** The columns of the cleaned table: the input's, the two weights, and the tier when hours exist. */
  function OutputColumns(raw: Frame): set<string> {
    raw.cols.Keys + {UsualWeightCol, FinalWeightCol} + (if HoursCol in raw.cols then {TierCol} else {})
  }

  function CleanColumn(raw: Frame, name: string): (r: seq<Cell>)
    requires Ready(raw) && name in OutputColumns(raw)
    ensures |r| == raw.n
  {
    if name == UsualWeightCol then UsualColumn(raw.cols[WeightTextCol])
    else if name == FinalWeightCol then FinalColumn(raw.cols[WeightTextCol])
    else if name == TierCol && HoursCol in raw.cols then TierColumn(FillNumeric(raw.cols[HoursCol]))
    else CleanCells(name, raw.cols[name])
  }

  /** The table `preprocess_data` returns, column by column. */
  function Preprocessed(raw: Frame): (clean: Frame)
    requires Ready(raw)
    ensures clean.Valid() && clean.n == raw.n && clean.cols.Keys == OutputColumns(raw)
  {
    Frame(raw.n, map name | name in OutputColumns(raw) :: CleanColumn(raw, name))
  }

  /** Every column name the normaliser rewrites, in the order it rewrites them. */
  const CleanedCols: seq<string> := NumericCols + FlagCols + TextCols + CategoryCols

  /** The names are distinct, and none is one of the columns the normaliser adds or reads the weights from. */
  lemma CleanedColsDistinct()
    ensures forall i, j :: 0 <= i < j < |CleanedCols| ==> CleanedCols[i] != CleanedCols[j]
    ensures forall i :: 0 <= i < |CleanedCols| ==>
      CleanedCols[i] !in {UsualWeightCol, FinalWeightCol, TierCol, WeightTextCol}
  {
  }

  /** Where each group sits in `CleanedCols`. */
  lemma GroupOffsets()
    ensures forall i :: 0 <= i < 3 ==> CleanedCols[i] == NumericCols[i]
    ensures forall i :: 0 <= i < 4 ==> CleanedCols[3 + i] == FlagCols[i]
    ensures forall i :: 0 <= i < 4 ==> CleanedCols[7 + i] == TextCols[i]
    ensures forall i :: 0 <= i < 2 ==> CleanedCols[11 + i] == CategoryCols[i]
  {
  }

  /** `CleanCells` applies the rule of the one group a cleaned name belongs to. */
  lemma CleanCellsRule(j: nat, col: seq<Cell>)
    requires j < |CleanedCols|
    ensures j < 3 ==> CleanCells(CleanedCols[j], col) == FillNumeric(col)
    ensures 3 <= j < 7 ==> CleanCells(CleanedCols[j], col) == FlagColumn(col)
    ensures 7 <= j < 11 ==> CleanCells(CleanedCols[j], col) == MapText(col)
    ensures 11 <= j ==> CleanCells(CleanedCols[j], col) == MapUnknown(col)
  {
    CleanedColsDistinct();
    var name := CleanedCols[j];
    if j < 3 {
      assert name == NumericCols[j];
    } else if j < 7 {
      assert name == FlagCols[j - 3];
      assert name !in NumericCols by { assert forall i :: 0 <= i < 3 ==> CleanedCols[i] == NumericCols[i]; }
    } else if j < 11 {
      assert name == TextCols[j - 7];
      assert name !in NumericCols by { assert forall i :: 0 <= i < 3 ==> CleanedCols[i] == NumericCols[i]; }
      assert name !in FlagCols by { assert forall i :: 0 <= i < 4 ==> CleanedCols[3 + i] == FlagCols[i]; }
    } else {
      assert name == CategoryCols[j - 11];
      assert name !in NumericCols by { assert forall i :: 0 <= i < 3 ==> CleanedCols[i] == NumericCols[i]; }
      assert name !in FlagCols by { assert forall i :: 0 <= i < 4 ==> CleanedCols[3 + i] == FlagCols[i]; }
      assert name !in TextCols by { assert forall i :: 0 <= i < 4 ==> CleanedCols[7 + i] == TextCols[i]; }
    }
  }

  /** A name in none of the groups is left as it is. */
  lemma CleanCellsOther(name: string, col: seq<Cell>)
    requires name !in CleanedCols
    ensures CleanCells(name, col) == col
  {
    assert forall i :: 0 <= i < 3 ==> CleanedCols[i] == NumericCols[i];
    assert forall i :: 0 <= i < 4 ==> CleanedCols[3 + i] == FlagCols[i];
    assert forall i :: 0 <= i < 4 ==> CleanedCols[7 + i] == TextCols[i];
    assert forall i :: 0 <= i < 2 ==> CleanedCols[11 + i] == CategoryCols[i];
  }

  /**
   * The progress of the normaliser: the first `k` cleaned names are done, every
   * other input column is untouched, and the two weight columns exist once `weighted`.
   */
  ghost predicate Stage(raw: Frame, clean: Frame, k: nat, weighted: bool)
    requires Ready(raw)
  {
    && k <= |CleanedCols|
    && clean.n == raw.n
    && clean.cols.Keys == raw.cols.Keys + (if weighted then {UsualWeightCol, FinalWeightCol} else {})
    && (weighted ==>
          && clean.cols[UsualWeightCol] == UsualColumn(raw.cols[WeightTextCol])
          && clean.cols[FinalWeightCol] == FinalColumn(raw.cols[WeightTextCol]))
    && forall name :: name in raw.cols && !(weighted && (name == UsualWeightCol || name == FinalWeightCol)) ==>
         clean.cols[name] == (if name in CleanedCols[..k] then CleanCells(name, raw.cols[name]) else raw.cols[name])
  }

  /** Cleaning the next name, when the table has it, advances the progress by one. */
  lemma StageStep(raw: Frame, prev: Frame, clean: Frame, k: nat, weighted: bool)
    requires Ready(raw) && k < |CleanedCols| && Stage(raw, prev, k, weighted)
    requires clean == if CleanedCols[k] in prev.cols
                      then prev.(cols := prev.cols[CleanedCols[k] := CleanCells(CleanedCols[k], prev.cols[CleanedCols[k]])])
                      else prev
    ensures Stage(raw, clean, k + 1, weighted)
  {
    CleanedColsDistinct();
    var name := CleanedCols[k];
    assert CleanedCols[..k + 1] == CleanedCols[..k] + [name];
    assert name !in CleanedCols[..k];
    if name in prev.cols {
      assert clean.cols.Keys == prev.cols.Keys;
    }
  }

  /** Adding the weight columns after the numeric group. */
  lemma StageWeights(raw: Frame, prev: Frame, clean: Frame)
    requires Ready(raw) && Stage(raw, prev, 3, false)
    requires clean == prev.(cols := prev.cols[UsualWeightCol := UsualColumn(prev.cols[WeightTextCol])]
                                             [FinalWeightCol := FinalColumn(prev.cols[WeightTextCol])])
    ensures Stage(raw, clean, 3, true)
  {
    CleanedColsDistinct();
    assert WeightTextCol !in CleanedCols[..3];
  }

  /**
   * `preprocess_data` (app.py:82-176): copy the table, then run the source's loops
   * over the column groups in its order, then add the tier.
   */
  method Preprocess(raw: Frame) returns (clean: Frame)
    requires Ready(raw)
    ensures clean == Preprocessed(raw)
  {
    GroupOffsets();
    clean := CleanNumbers(raw);
    ghost var prev := clean;
    var weights := clean.cols[WeightTextCol];
    clean := clean.(cols := clean.cols[UsualWeightCol := UsualColumn(weights)][FinalWeightCol := FinalColumn(weights)]);
    StageWeights(raw, prev, clean);
    clean := CleanFlags(raw, clean);
    clean := CleanTexts(raw, clean);
    clean := CleanCategories(raw, clean);
    ghost var before := clean;
    if HoursCol in clean.cols {
      clean := clean.(cols := clean.cols[TierCol := TierColumn(clean.cols[HoursCol])]);
    }
    FinishStage(raw, before, clean);
  }

  /** Step 1: every numeric column present becomes `FillNumeric` of itself. */
  method CleanNumbers(raw: Frame) returns (clean: Frame)
    requires Ready(raw)
    ensures Stage(raw, clean, 3, false)
  {
    GroupOffsets();
    clean := raw;
    for k := 0 to |NumericCols|
      invariant Stage(raw, clean, k, false)
    {
      var name := NumericCols[k];
      assert name == CleanedCols[k];
      ghost var prev := clean;
      if name in clean.cols {
        CleanCellsRule(k, clean.cols[name]);
        clean := clean.(cols := clean.cols[name := FillNumeric(clean.cols[name])]);
      }
      StageStep(raw, prev, clean, k, false);
    }
  }

  /** Step 3: every yes/no column present is normalised. */
  method CleanFlags(raw: Frame, start: Frame) returns (clean: Frame)
    requires Ready(raw) && Stage(raw, start, 3, true)
    ensures Stage(raw, clean, 7, true)
  {
    GroupOffsets();
    clean := start;
    for k := 0 to |FlagCols|
      invariant Stage(raw, clean, 3 + k, true)
    {
      var name := FlagCols[k];
      assert name == CleanedCols[3 + k];
      ghost var prev := clean;
      if name in clean.cols {
        CleanCellsRule(3 + k, clean.cols[name]);
        clean := clean.(cols := clean.cols[name := FlagColumn(clean.cols[name])]);
      }
      StageStep(raw, prev, clean, 3 + k, true);
    }
  }

  /** Step 4: every free-text column present is filled. */
  method CleanTexts(raw: Frame, start: Frame) returns (clean: Frame)
    requires Ready(raw) && Stage(raw, start, 7, true)
    ensures Stage(raw, clean, 11, true)
  {
    GroupOffsets();
    clean := start;
    for k := 0 to |TextCols|
      invariant Stage(raw, clean, 7 + k, true)
    {
      var name := TextCols[k];
      assert name == CleanedCols[7 + k];
      ghost var prev := clean;
      if name in clean.cols {
        CleanCellsRule(7 + k, clean.cols[name]);
        clean := clean.(cols := clean.cols[name := MapText(clean.cols[name])]);
      }
      StageStep(raw, prev, clean, 7 + k, true);
    }
  }

  /** Step 5: every categorical column present is filled. */
  method CleanCategories(raw: Frame, start: Frame) returns (clean: Frame)
    requires Ready(raw) && Stage(raw, start, 11, true)
    ensures Stage(raw, clean, 13, true)
  {
    GroupOffsets();
    clean := start;
    for k := 0 to |CategoryCols|
      invariant Stage(raw, clean, 11 + k, true)
    {
      var name := CategoryCols[k];
      assert name == CleanedCols[11 + k];
      ghost var prev := clean;
      if name in clean.cols {
        CleanCellsRule(11 + k, clean.cols[name]);
        clean := clean.(cols := clean.cols[name := MapUnknown(clean.cols[name])]);
      }
      StageStep(raw, prev, clean, 11 + k, true);
    }
  }

  lemma FinishStage(raw: Frame, before: Frame, clean: Frame)
    requires Ready(raw) && Stage(raw, before, |CleanedCols|, true)
    requires clean == if HoursCol in before.cols
                      then before.(cols := before.cols[TierCol := TierColumn(before.cols[HoursCol])])
                      else before
    ensures clean == Preprocessed(raw)
  {
    FinishKeys(raw, before, clean);
    forall name | name in OutputColumns(raw) ensures clean.cols[name] == CleanColumn(raw, name) {
      FinalColumnOf(raw, before, clean, name);
    }
    PreprocessedByColumns(raw, clean);
  }

  lemma FinishKeys(raw: Frame, before: Frame, clean: Frame)
    requires Ready(raw) && Stage(raw, before, |CleanedCols|, true)
    requires clean == if HoursCol in before.cols
                      then before.(cols := before.cols[TierCol := TierColumn(before.cols[HoursCol])])
                      else before
    ensures clean.n == raw.n && clean.cols.Keys == OutputColumns(raw)
  {
  }

  /** A table with the output columns, each cleaned by its rule, is the normalised table. */
  lemma PreprocessedByColumns(raw: Frame, clean: Frame)
    requires Ready(raw) && clean.n == raw.n && clean.cols.Keys == OutputColumns(raw)
    requires forall name :: name in OutputColumns(raw) ==> clean.cols[name] == CleanColumn(raw, name)
    ensures clean == Preprocessed(raw)
  {
    assert clean.cols == Preprocessed(raw).cols;
  }

  lemma FinalColumnOf(raw: Frame, before: Frame, clean: Frame, name: string)
    requires Ready(raw) && Stage(raw, before, |CleanedCols|, true)
    requires clean == if HoursCol in before.cols
                      then before.(cols := before.cols[TierCol := TierColumn(before.cols[HoursCol])])
                      else before
    requires name in OutputColumns(raw)
    ensures name in clean.cols && clean.cols[name] == CleanColumn(raw, name)
  {
    assert CleanedCols[..|CleanedCols|] == CleanedCols;
    CleanedColsDistinct();
    if name == TierCol && HoursCol in raw.cols {
      CleanCellsRule(1, raw.cols[HoursCol]);
    } else if name == UsualWeightCol || name == FinalWeightCol {
    } else if name !in CleanedCols {
      CleanCellsOther(name, raw.cols[name]);
    }
  }
}
