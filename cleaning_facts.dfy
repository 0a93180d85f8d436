/**
 * What the normaliser guarantees about the table it returns: the canonical shape
 * of every cleaned column, the columns it adds, and that cleaning a cleaned table
 * changes nothing.
 */
module CleaningFacts {
  import opened Wrappers
  import opened Strings
  import opened Numerals
  import opened Frames
  import opened Cleaning

  predicate IsFlagCell(c: Cell) {
    c == Str("是") || c == Str("否")
  }

  predicate IsWhole(c: Cell) {
    c.Num? && c.x == c.x.Floor as real
  }

  predicate NumbersOnly(f: Frame)
    requires f.Valid()
  {
    forall name, i :: name in NumericCols && name in f.cols && 0 <= i < f.n ==> f.cols[name][i].Num?
  }

  predicate FlagsOnly(f: Frame)
    requires f.Valid()
  {
    forall name, i :: name in FlagCols && name in f.cols && 0 <= i < f.n ==> IsFlagCell(f.cols[name][i])
  }

  predicate TextFilled(f: Frame)
    requires f.Valid()
  {
    forall name, i :: name in TextCols && name in f.cols && 0 <= i < f.n ==>
      f.cols[name][i] != Missing && f.cols[name][i] != Str("0") && f.cols[name][i] != Str("无")
  }

  predicate CategoriesFilled(f: Frame)
    requires f.Valid()
  {
    forall name, i :: name in CategoryCols && name in f.cols && 0 <= i < f.n ==> f.cols[name][i] != Missing
  }

  predicate WholeWeights(f: Frame)
    requires f.Valid()
  {
    && UsualWeightCol in f.cols && FinalWeightCol in f.cols
    && forall i :: 0 <= i < f.n ==> IsWhole(f.cols[UsualWeightCol][i]) && IsWhole(f.cols[FinalWeightCol][i])
  }

  /**
   * The canonical table: numeric columns hold only numbers, flag columns only the
   * two flag labels, free-text columns neither missing cells nor the sentinels
   * `"0"` and `"无"`, categorical columns no missing cells, and the two weight
   * columns whole numbers.
   */
  predicate Canonical(f: Frame)
    requires f.Valid()
  {
    NumbersOnly(f) && FlagsOnly(f) && TextFilled(f) && CategoriesFilled(f) && WholeWeights(f)
  }

  /** Which rule a cleaned column of the output was built with. */
  lemma OutputColumn(raw: Frame, name: string)
    requires Ready(raw) && name in raw.cols && name !in {UsualWeightCol, FinalWeightCol, TierCol}
    ensures Preprocessed(raw).cols[name] == CleanCells(name, raw.cols[name])
  {
  }

  /** No raw sentinel is left in a numeric, flag, text or categorical column. */
  lemma PreprocessedCanonical(raw: Frame)
    requires Ready(raw)
    ensures Canonical(Preprocessed(raw))
  {
    CleanedColsDistinct();
    GroupOffsets();
    CanonicalNumbers(raw);
    CanonicalFlags(raw);
    CanonicalTexts(raw);
    CanonicalCategories(raw);
  }

  lemma CanonicalNumbers(raw: Frame)
    requires Ready(raw)
    ensures NumbersOnly(Preprocessed(raw))
  {
    var p := Preprocessed(raw);
    GroupOffsets();
    forall name, i | name in NumericCols && name in p.cols && 0 <= i < p.n ensures p.cols[name][i].Num? {
      var j :| 0 <= j < 3 && NumericCols[j] == name;
      CleanCellsRule(j, raw.cols[name]);
    }
  }

  lemma CanonicalFlags(raw: Frame)
    requires Ready(raw)
    ensures FlagsOnly(Preprocessed(raw))
  {
    var p := Preprocessed(raw);
    GroupOffsets();
    forall name, i | name in FlagCols && name in p.cols && 0 <= i < p.n ensures IsFlagCell(p.cols[name][i]) {
      var j :| 0 <= j < 4 && FlagCols[j] == name;
      CleanCellsRule(3 + j, raw.cols[name]);
    }
  }

  lemma CanonicalTexts(raw: Frame)
    requires Ready(raw)
    ensures TextFilled(Preprocessed(raw))
  {
    var p := Preprocessed(raw);
    GroupOffsets();
    forall name, i | name in TextCols && name in p.cols && 0 <= i < p.n
      ensures p.cols[name][i] != Missing && p.cols[name][i] != Str("0") && p.cols[name][i] != Str("无")
    {
      var j :| 0 <= j < 4 && TextCols[j] == name;
      CleanCellsRule(7 + j, raw.cols[name]);
    }
  }

  lemma CanonicalCategories(raw: Frame)
    requires Ready(raw)
    ensures CategoriesFilled(Preprocessed(raw))
  {
    var p := Preprocessed(raw);
    GroupOffsets();
    forall name, i | name in CategoryCols && name in p.cols && 0 <= i < p.n ensures p.cols[name][i] != Missing {
      var j :| 0 <= j < 2 && CategoryCols[j] == name;
      CleanCellsRule(11 + j, raw.cols[name]);
    }
  }

  /**
   * The tier column exists exactly when hours exist (or the input already had a
   * column of that name), and each tier is the bin of the cleaned hours in its row.
   */
  lemma PreprocessedTier(raw: Frame)
    requires Ready(raw)
    ensures TierCol in Preprocessed(raw).cols <==> HoursCol in raw.cols || TierCol in raw.cols
    ensures HoursCol in raw.cols ==>
      && HoursCol in Preprocessed(raw).cols
      && forall i :: 0 <= i < raw.n ==>
           Preprocessed(raw).cols[TierCol][i] == TierCell(Preprocessed(raw).cols[HoursCol][i])
  {
    if HoursCol in raw.cols {
      var p := Preprocessed(raw);
      CleanedColsDistinct();
      GroupOffsets();
      CleanCellsRule(1, raw.cols[HoursCol]);
      assert p.cols[HoursCol] == FillNumeric(raw.cols[HoursCol]);
      assert p.cols[TierCol] == TierColumn(FillNumeric(raw.cols[HoursCol]));
    }
  }

  /** The weight columns hold the pair read from the weight text of the same row. */
  lemma PreprocessedWeights(raw: Frame, i: nat)
    requires Ready(raw) && i < raw.n
    ensures Preprocessed(raw).cols[UsualWeightCol][i] == Num(WeightPair(raw.cols[WeightTextCol][i]).0 as real)
    ensures Preprocessed(raw).cols[FinalWeightCol][i] == Num(WeightPair(raw.cols[WeightTextCol][i]).1 as real)
  {
  }

  lemma FillNumericIdempotent(col: seq<Cell>)
    ensures FillNumeric(FillNumeric(col)) == FillNumeric(col)
  {
  }

  lemma FlagColumnIdempotent(col: seq<Cell>)
    ensures FlagColumn(FlagColumn(col)) == FlagColumn(col)
  {
    forall i | 0 <= i < |col| {
      FlagLabelFixed(NormalizeFlag(col[i]));
    }
  }

  lemma CleanCellsIdempotent(name: string, col: seq<Cell>)
    ensures CleanCells(name, CleanCells(name, col)) == CleanCells(name, col)
  {
    if name in NumericCols {
      FillNumericIdempotent(col);
    } else if name in FlagCols {
      FlagColumnIdempotent(col);
    }
  }

  /** Normalising a normalised table is a no-op. */
  lemma PreprocessIdempotent(raw: Frame)
    requires Ready(raw)
    ensures Ready(Preprocessed(raw))
    ensures Preprocessed(Preprocessed(raw)) == Preprocessed(raw)
  {
    var p := Preprocessed(raw);
    PreprocessedKeys(raw);
    var q := Preprocessed(p);
    forall name | name in OutputColumns(raw) ensures q.cols[name] == p.cols[name] {
      IdempotentColumn(raw, name);
    }
    assert q.cols == p.cols;
  }

  /** The cleaned table is again ready, and cleaning it adds no column. */
  lemma PreprocessedKeys(raw: Frame)
    requires Ready(raw)
    ensures Ready(Preprocessed(raw))
    ensures OutputColumns(Preprocessed(raw)) == OutputColumns(raw)
    ensures Preprocessed(raw).cols[WeightTextCol] == raw.cols[WeightTextCol]
  {
    CleanedColsDistinct();
    CleanCellsOther(WeightTextCol, raw.cols[WeightTextCol]);
  }

  /** Cleaning a cleaned column again leaves it as it is. */
  lemma IdempotentColumn(raw: Frame, name: string)
    requires Ready(raw) && name in OutputColumns(raw)
    ensures Ready(Preprocessed(raw))
    ensures Preprocessed(Preprocessed(raw)).cols[name] == Preprocessed(raw).cols[name]
  {
    var p := Preprocessed(raw);
    PreprocessedKeys(raw);
    CleanedColsDistinct();
    if name == TierCol && HoursCol in raw.cols {
      CleanCellsRule(1, raw.cols[HoursCol]);
      CleanCellsRule(1, p.cols[HoursCol]);
      FillNumericIdempotent(raw.cols[HoursCol]);
    } else if name != UsualWeightCol && name != FinalWeightCol {
      CleanCellsIdempotent(name, raw.cols[name]);
    }
  }

  /** Two digit strings around one `/` are read as the pair of their values. */
  lemma WeightOfDigits(a: string, b: string)
    requires |a| > 0 && AllDigits(a) && |b| > 0 && AllDigits(b)
    ensures WeightPair(Str(a + "/" + b)) == (DigitsValue(a), DigitsValue(b))
  {
    assert '/' !in a && '/' !in b by {
      assert !IsDigit('/');
    }
    assert IsTrimmed(a) && IsTrimmed(b) by {
      assert !IsSpace(a[0]) && !IsSpace(a[|a| - 1]) && !IsSpace(b[0]) && !IsSpace(b[|b| - 1]);
    }
    TrimOfTrimmed(a);
    TrimOfTrimmed(b);
    assert !IsSign(a[0]) && !IsSign(b[0]);
    WeightSides(a, b);
  }

  lemma DigitsExample()
    ensures AllDigits("40") && DigitsValue("40") == 40
    ensures AllDigits("60") && DigitsValue("60") == 60
  {
    assert "40"[..1] == "4" && "60"[..1] == "6";
  }

  /** `"40/60"` is read literally. */
  lemma WeightExample4060()
    ensures WeightPair(Str("40/60")) == (40, 60)
  {
    DigitsExample();
    WeightOfDigits("40", "60");
    assert "40" + "/" + "60" == "40/60";
  }

  /** The order of the two sides is kept: `"60/40"` gives `(60, 40)`. */
  lemma WeightExample6040()
    ensures WeightPair(Str("60/40")) == (60, 40)
  {
    DigitsExample();
    WeightOfDigits("60", "40");
    assert "60" + "/" + "40" == "60/40";
  }

  lemma TextExample()
    ensures IntText(20) == "20" && IntText(80) == "80"
  {
    assert NatText(2) == "2" && NatText(8) == "8";
  }

  /** White space around either number is ignored. */
  lemma WeightExamplePadded()
    ensures WeightPair(Str(" 20 / 80 ")) == (20, 80)
  {
    TextExample();
    WeightRoundTrip(20, 80, " ", " ", " ", " ");
    assert " " + "20" + " " + "/" + " " + "80" + " " == " 20 / 80 ";
  }

  /** A side that is not an integer makes the whole cell fall back. */
  lemma WeightExampleNotInt()
    ensures WeightPair(Str("abc/60")) == (50, 50)
  {
    TrimOfTrimmed("abc");
    assert ParseInt("abc") == None;
    WeightOfBadSide("abc", "60");
    assert "abc" + "/" + "60" == "abc/60";
  }

  /** A left side that is not an integer gives the fallback. */
  lemma WeightOfBadSide(a: string, b: string)
    requires '/' !in a && '/' !in b && ParseInt(Trim(a)) == None
    ensures WeightPair(Str(a + "/" + b)) == (50, 50)
  {
    WeightSides(a, b);
  }

  /** Three parts make the cell fall back. */
  lemma WeightExampleThreeParts()
    ensures WeightPair(Str("40/60/0")) == (50, 50)
  {
    assert Count("40/60/0", '/') == 2;
  }

  /** The sentinels and a missing cell fall back to `(50, 50)`. */
  lemma WeightExampleSentinels()
    ensures WeightPair(Str("0")) == (50, 50)
    ensures WeightPair(Str("无")) == (50, 50)
    ensures WeightPair(Str("")) == (50, 50)
    ensures WeightPair(Str(" ")) == (50, 50)
    ensures WeightPair(Missing) == (50, 50)
  {
  }

  /** `"有"` and `" yes "` are yes. */
  lemma FlagYesExamples()
    ensures NormalizeFlag(Str("有")) == Yes
    ensures NormalizeFlag(Str(" yes ")) == Yes
  {
    TrimOfTrimmed("有");
    TrimPadded(" ", "yes", " ");
    assert " " + "yes" + " " == " yes ";
  }

  /** Exact case only: `"YES"`, `"maybe"`, `""` and a missing cell are no. */
  lemma FlagNoExamples()
    ensures NormalizeFlag(Str("YES")) == No
    ensures NormalizeFlag(Str("maybe")) == No
    ensures NormalizeFlag(Str("")) == No
    ensures NormalizeFlag(Missing) == No
  {
    TrimOfTrimmed("YES");
    TrimOfTrimmed("maybe");
    TrimOfTrimmed("");
  }

  /** The bin edges: 31 is short, 32 medium, 48 long, 100 and -1 have no tier. */
  lemma TierExamples()
    ensures TierOf(31.0) == Some(Short)
    ensures TierOf(32.0) == Some(Medium)
    ensures TierOf(47.5) == Some(Medium)
    ensures TierOf(48.0) == Some(Long)
    ensures TierOf(99.0) == Some(Long)
    ensures TierOf(100.0) == None
    ensures TierOf(-1.0) == None
  {
  }
}
