/**
 * The software-tool frequency table (`analyze_software_tools`), the distinct-tool
 * count of the software-course tab, and the assessment-content counter.
 *
 * A tool cell is read as a comma-separated list whose entries may themselves be
 * separated by `、`; every piece is stripped, and empty pieces and `"无"` are dropped.
 */
module Tools {
  import opened Strings
  import opened Frames
  import opened Tally
  import Cleaning
  import Filters

  const ToolsCol: string := "软件工具"
  const AssessmentCol: string := "考核内容"
  const SoftwareFlagCol: string := "是否有软件实操"

  /** The outer and inner separators of a tool cell. */
  const ListSep: char := ','
  const SubSep: char := '、'

  /** The text `str(nan)` of a missing cell. */
  const NanText: string := "nan"

  /** The lab tools already installed, compared case-insensitively. */
  const LabTools: seq<string> := ["SPSS", "Stata", "Excel"]

  /** How many tools and assessment kinds the two tables keep. */
  const TopTools: nat := 20
  const TopAssessments: nat := 10

  /** A stripped piece is counted when it is not empty and not `"无"`. */
  predicate KeepToken(t: string) {
    t != [] && t != "无"
  }

  /** The shape of every counted token: kept, stripped, and free of both separators. */
  predicate Token(t: string) {
    KeepToken(t) && IsTrimmed(t) && ListSep !in t && SubSep !in t
  }

  /** No string of `ts` contains `c`. */
  predicate Free(ts: seq<string>, c: char) {
    forall k :: 0 <= k < |ts| ==> c !in ts[k]
  }

  /** The stripped, kept pieces of `subs`, in order: the inner loop over `tool.split('、')`. */
  function Kept(subs: seq<string>): (ts: seq<string>)
    ensures |ts| <= |subs|
    ensures forall k :: 0 <= k < |ts| ==> KeepToken(ts[k]) && IsTrimmed(ts[k])
  {
    if subs == [] then []
    else
      var t := Trim(subs[|subs| - 1]);
      TrimIsTrimmed(subs[|subs| - 1]);
      Kept(subs[..|subs| - 1]) + (if KeepToken(t) then [t] else [])
  }

  /** The tokens of the comma-separated entries `pieces`, entry after entry. */
  function PieceTokens(pieces: seq<string>): seq<string> {
    if pieces == [] then []
    else PieceTokens(pieces[..|pieces| - 1]) + Kept(Split(pieces[|pieces| - 1], SubSep))
  }

  /** The tokens of one tool text. */
  function TextTokens(text: string): seq<string> {
    PieceTokens(Split(text, ListSep))
  }

  /** The tokens a cell contributes after `dropna()`: none for a missing cell or `"未提供"`. */
  function CellTokens(c: Cell): seq<string>
    requires !c.Num?
  {
    match c
    case Str(s) => if s == Cleaning.NotProvided then [] else TextTokens(s)
    case _ => []
  }

  /** All tokens of a tool column, cell after cell. */
  function ColumnTokens(col: seq<Cell>): seq<string>
    requires TextCells(col)
  {
    if col == [] then []
    else ColumnTokens(col[..|col| - 1]) + CellTokens(col[|col| - 1])
  }

  lemma {:induction false} KeptFree(subs: seq<string>, c: char)
    requires Free(subs, c)
    ensures Free(Kept(subs), c)
  {
    if subs != [] {
      KeptFree(subs[..|subs| - 1], c);
      TrimKeepsOut(subs[|subs| - 1], c);
    }
  }

  lemma {:induction false} PieceTokensShape(pieces: seq<string>)
    requires Free(pieces, ListSep)
    ensures forall k :: 0 <= k < |PieceTokens(pieces)| ==> Token(PieceTokens(pieces)[k])
  {
    if pieces != [] {
      var p := pieces[|pieces| - 1];
      PieceTokensShape(pieces[..|pieces| - 1]);
      SplitKeepsOut(p, SubSep, ListSep);
      KeptFree(Split(p, SubSep), ListSep);
      KeptFree(Split(p, SubSep), SubSep);
    }
  }

  /** Every token of a tool text is non-empty, not `"无"`, stripped and free of both separators. */
  lemma TextTokensShape(text: string)
    ensures forall k :: 0 <= k < |TextTokens(text)| ==> Token(TextTokens(text)[k])
  {
    PieceTokensShape(Split(text, ListSep));
  }

  /** Every token of a tool column has the shape of `Token`. */
  lemma {:induction false} ColumnTokensShape(col: seq<Cell>)
    requires TextCells(col)
    ensures forall k :: 0 <= k < |ColumnTokens(col)| ==> Token(ColumnTokens(col)[k])
  {
    if col != [] {
      ColumnTokensShape(col[..|col| - 1]);
      var c := col[|col| - 1];
      if c.Str? && c.s != Cleaning.NotProvided {
        TextTokensShape(c.s);
      }
    }
  }

  lemma {:induction false} KeptAppend(p: seq<string>, q: seq<string>)
    ensures Kept(p + q) == Kept(p) + Kept(q)
  {
    if q != [] {
      var n := |q| - 1;
      assert (p + q)[..|p + q| - 1] == p + q[..n];
      KeptAppend(p, q[..n]);
    } else {
      assert p + q == p;
    }
  }

  lemma {:induction false} PieceTokensAppend(p: seq<string>, q: seq<string>)
    ensures PieceTokens(p + q) == PieceTokens(p) + PieceTokens(q)
  {
    if q != [] {
      var n := |q| - 1;
      assert (p + q)[..|p + q| - 1] == p + q[..n];
      PieceTokensAppend(p, q[..n]);
    } else {
      assert p + q == p;
    }
  }

  /** The tokens of a piece without commas are the kept, stripped parts between its `、`. */
  lemma OnePiece(p: string)
    requires ListSep !in p
    ensures TextTokens(p) == Kept(Split(p, SubSep))
  {
    SplitFree(p, ListSep);
    assert [p][..0] == [];
    assert PieceTokens([p]) == PieceTokens([]) + Kept(Split(p, SubSep));
  }

  /** Two tool texts joined by a comma give the tokens of the first, then those of the second. */
  lemma TextTokensComma(a: string, b: string)
    ensures TextTokens(a + [ListSep] + b) == TextTokens(a) + TextTokens(b)
  {
    SplitConcat(a, b, ListSep);
    PieceTokensAppend(Split(a, ListSep), Split(b, ListSep));
  }

  /** Two comma-free texts joined by `、` give the tokens of the first, then those of the second. */
  lemma TextTokensSubSep(a: string, b: string)
    requires ListSep !in a && ListSep !in b
    ensures TextTokens(a + [SubSep] + b) == TextTokens(a) + TextTokens(b)
  {
    var ab := a + [SubSep] + b;
    assert ListSep !in ab by {
      assert forall k :: 0 <= k < |ab| ==> ab[k] == (if k < |a| then a[k] else if k == |a| then SubSep else b[k - |a| - 1]);
    }
    OnePiece(a);
    OnePiece(b);
    OnePiece(ab);
    SplitConcat(a, b, SubSep);
    KeptAppend(Split(a, SubSep), Split(b, SubSep));
  }

  /** One tool name with white space around it is read as that tool alone. */
  lemma SingleToken(pre: string, t: string, post: string)
    requires Token(t) && AllSpace(pre) && AllSpace(post)
    ensures TextTokens(pre + t + post) == [t]
  {
    var x := pre + t + post;
    assert ListSep !in x && SubSep !in x by {
      assert forall k :: 0 <= k < |x| ==> x[k] == (if k < |pre| then pre[k] else if k < |pre| + |t| then t[k - |pre|] else post[k - |pre| - |t|]);
    }
    OnePiece(x);
    SplitFree(x, SubSep);
    TrimPadded(pre, t, post);
    assert [x][..0] == [];
  }

  /** `"无"` yields no token. */
  lemma TextTokensNone()
    ensures TextTokens("无") == []
  {
    OnePiece("无");
    SplitFree("无", SubSep);
    TrimOfTrimmed("无");
    assert ["无"][..0] == [];
  }

  /** `" , "` yields no token: both entries are blank. */
  lemma TextTokensBlank()
    ensures TextTokens(" , ") == []
  {
    TextTokensComma(" ", " ");
    assert " " + [ListSep] + " " == " , ";
    OnePiece(" ");
    SplitFree(" ", SubSep);
    assert Trim(" ") == [];
    assert [" "][..0] == [];
  }

  /** The innermost loop: appends the kept, stripped pieces of `subs` to `acc`. */
  method AppendKept(acc: seq<string>, subs: seq<string>) returns (all: seq<string>)
    ensures all == acc + Kept(subs)
  {
    all := acc;
    for k := 0 to |subs|
      invariant all == acc + Kept(subs[..k])
    {
      assert subs[..k + 1][..k] == subs[..k];
      var t := Trim(subs[k]);
      if KeepToken(t) {
        all := all + [t];
      }
    }
    assert subs[..|subs|] == subs;
  }

  /** The middle loop: appends the tokens of each comma-separated entry to `acc`. */
  method AppendPieces(acc: seq<string>, pieces: seq<string>) returns (all: seq<string>)
    ensures all == acc + PieceTokens(pieces)
  {
    all := acc;
    for j := 0 to |pieces|
      invariant all == acc + PieceTokens(pieces[..j])
    {
      assert pieces[..j + 1][..j] == pieces[..j];
      assert PieceTokens(pieces[..j + 1]) == PieceTokens(pieces[..j]) + Kept(Split(pieces[j], SubSep));
      all := AppendKept(all, Split(pieces[j], SubSep));
    }
    assert pieces[..|pieces|] == pieces;
  }

  /**
   * Collects all tokens of a tool column as the source does: a loop over the
   * cells, a loop over the comma-separated entries and a loop over the
   * `、`-separated pieces, appending each kept piece.
   */
  method CollectTools(col: seq<Cell>) returns (all: seq<string>)
    requires TextCells(col)
    ensures all == ColumnTokens(col)
  {
    all := [];
    for i := 0 to |col|
      invariant all == ColumnTokens(col[..i])
    {
      assert col[..i + 1][..i] == col[..i];
      var c := col[i];
      if c.Str? && c.s != Cleaning.NotProvided {
        all := AppendPieces(all, Split(c.s, ListSep));
      }
    }
    assert col[..|col|] == col;
  }

  /** The status column of the tool table. */
  datatype LabStatus = InLab | NeedsAdding

  function StatusLabel(st: LabStatus): string {
    match st
    case InLab => "机房已有"
    case NeedsAdding => "需补充"
  }

  /** Some lab tool, lower-cased, occurs in the lower-cased tool name. */
  predicate OnLab(tool: string) {
    exists i :: 0 <= i < |LabTools| && IsSubstring(Lower(LabTools[i]), Lower(tool))
  }

  function StatusOf(tool: string): LabStatus {
    if OnLab(tool) then InLab else NeedsAdding
  }

  /** The status ignores letter case: a tool and its lower-cased name get the same status. */
  lemma StatusIgnoresCase(tool: string)
    ensures StatusOf(Lower(tool)) == StatusOf(tool)
  {
    LowerIdempotent(tool);
  }

  /**
   * A tool whose name contains a lab tool's name, in any mixture of upper and
   * lower case, is on the lab machines.
   */
  lemma StatusOfContaining(tool: string, p: string, i: nat)
    requires i < |LabTools| && Lower(p) == Lower(LabTools[i]) && IsSubstring(p, tool)
    ensures StatusOf(tool) == InLab
  {
    SubstringLower(p, tool);
  }

  /** `"spss26"` and `"EXCEL"` are on the lab machines; `"R"` is not. */
  lemma StatusExamples()
    ensures StatusOf("spss26") == InLab
    ensures StatusOf("EXCEL") == InLab
    ensures StatusOf("R") == NeedsAdding
  {
    assert Lower("EXCEL") == Lower(LabTools[2]);
    StatusOfContaining("EXCEL", "EXCEL", 2);
    assert LabTools[0] == "SPSS";
    assert Lower("SPSS") == "spss";
    assert Lower("spss26") == "spss26";
    assert "spss" <= "spss26";
    assert IsSubstring(Lower(LabTools[0]), Lower("spss26"));
    assert Lower("R") == "r";
    assert Lower("SPSS") == "spss" && Lower("Stata") == "stata" && Lower("Excel") == "excel";
    assert !IsSubstring("spss", "r") && !IsSubstring("stata", "r") && !IsSubstring("excel", "r");
  }

  /** One row of the tool table: the tool, the number of courses naming it, and its status. */
  datatype ToolRow = ToolRow(tool: string, courses: nat, status: LabStatus)

  /** The table built from the collected tokens: empty without tokens, else the top 20 tagged. */
  function ToolTable(tokens: seq<string>): (rows: seq<ToolRow>)
    ensures |rows| == |MostCommon(tokens, TopTools)|
    ensures forall i :: 0 <= i < |rows| ==>
      rows[i] == ToolRow(MostCommon(tokens, TopTools)[i].0, MostCommon(tokens, TopTools)[i].1,
                         StatusOf(MostCommon(tokens, TopTools)[i].0))
  {
    if tokens == [] then []
    else
      var top := MostCommon(tokens, TopTools);
      seq(|top|, i requires 0 <= i < |top| => ToolRow(top[i].0, top[i].1, StatusOf(top[i].0)))
  }

  /**
   * `analyze_software_tools`: the tokens of the `"软件工具"` column, counted, the
   * twenty most frequent kept, each tagged with its lab status.
   */
  method AnalyzeSoftwareTools(df: Frame) returns (rows: seq<ToolRow>)
    requires df.Valid() && ToolsCol in df.cols && TextCells(df.cols[ToolsCol])
    ensures rows == ToolTable(ColumnTokens(df.cols[ToolsCol]))
  {
    var all := CollectTools(df.cols[ToolsCol]);
    if all == [] {
      return [];
    }
    var top := MostCommon(all, TopTools);
    rows := seq(|top|, i requires 0 <= i < |top| => ToolRow(top[i].0, top[i].1, StatusOf(top[i].0)));
  }

  /**
   * The tool table holds at most twenty distinct tools, each a token of the
   * column with its exact number of occurrences, counts never increase, equal
   * counts keep first-occurrence order, and the table is empty exactly when
   * there is no token.
   */
  lemma ToolTableFacts(tokens: seq<string>)
    ensures |ToolTable(tokens)| <= TopTools
    ensures ToolTable(tokens) == [] <==> tokens == []
    ensures forall i :: 0 <= i < |ToolTable(tokens)| ==>
      ToolTable(tokens)[i].tool in tokens && ToolTable(tokens)[i].courses == Occurrences(tokens, ToolTable(tokens)[i].tool)
    ensures forall i, j :: 0 <= i < j < |ToolTable(tokens)| ==>
      ToolTable(tokens)[i].tool != ToolTable(tokens)[j].tool && ToolTable(tokens)[i].courses >= ToolTable(tokens)[j].courses
    ensures forall i, j :: 0 <= i < j < |ToolTable(tokens)| && ToolTable(tokens)[i].courses == ToolTable(tokens)[j].courses ==>
      FirstIndex(tokens, ToolTable(tokens)[i].tool) < FirstIndex(tokens, ToolTable(tokens)[j].tool)
  {
    var t := ToolTable(tokens);
    var top := MostCommon(tokens, TopTools);
    MostCommonLength(tokens, TopTools);
    if tokens != [] {
      assert tokens[0] in FirstSeen(tokens);
    }
    MostCommonEntries(tokens, TopTools);
    forall i, j | 0 <= i < j < |t|
      ensures t[i].tool != t[j].tool && t[i].courses >= t[j].courses
      ensures t[i].courses == t[j].courses ==> FirstIndex(tokens, t[i].tool) < FirstIndex(tokens, t[j].tool)
    {
      assert t[i].tool == top[i].0 && t[i].courses == top[i].1;
      assert t[j].tool == top[j].0 && t[j].courses == top[j].1;
    }
  }

  /** A token left out of the tool table is used no more often than any tool listed. */
  lemma ToolTableMaximal(tokens: seq<string>, t: string)
    requires t in tokens
    requires forall i :: 0 <= i < |ToolTable(tokens)| ==> ToolTable(tokens)[i].tool != t
    ensures forall i :: 0 <= i < |ToolTable(tokens)| ==> Occurrences(tokens, t) <= ToolTable(tokens)[i].courses
  {
    var top := MostCommon(tokens, TopTools);
    assert forall i :: 0 <= i < |top| ==> top[i].0 == ToolTable(tokens)[i].tool;
    MostCommonMaximal(tokens, TopTools, t);
  }

  /** The counts behind the table cover every token exactly once. */
  lemma ToolCountsTotal(col: seq<Cell>)
    requires TextCells(col)
    ensures TotalCount(Counts(ColumnTokens(col))) == |ColumnTokens(col)|
  {
    TotalCounts(ColumnTokens(col));
  }

  /**
   * The tokens the distinct-tool count sees: the cells are taken without
   * `dropna()`, so a missing cell is read as the text `"nan"`.
   */
  function ListCellTokens(c: Cell): seq<string>
    requires !c.Num?
  {
    match c
    case Missing => TextTokens(NanText)
    case Str(s) => if s == Cleaning.NotProvided then [] else TextTokens(s)
    case _ => []
  }

  function ListTokens(col: seq<Cell>): seq<string>
    requires TextCells(col)
  {
    if col == [] then []
    else ListTokens(col[..|col| - 1]) + ListCellTokens(col[|col| - 1])
  }

  /** The tool cells of the courses whose software flag is `"是"`, in row order. */
  function SoftwareCourseTools(flags: seq<Cell>, tools: seq<Cell>): (r: seq<Cell>)
    requires |flags| == |tools|
    ensures |r| <= |tools|
    ensures forall k :: 0 <= k < |r| ==> r[k] in tools
    ensures TextCells(tools) ==> TextCells(r)
  {
    if tools == [] then []
    else
      var n := |tools| - 1;
      SoftwareCourseTools(flags[..n], tools[..n]) + (if flags[n] == Str("是") then [tools[n]] else [])
  }

  /** The row mask `df['是否有软件实操'] == '是'`. */
  const SoftwareMask: Filters.Criterion := Filters.InSet(SoftwareFlagCol, {Str("是")})

  /** Masking rows by the software flag and reading the tool column is selecting the flagged tool cells. */
  lemma {:induction false} KeepSoftwareTools(rows: seq<Row>)
    requires forall i :: 0 <= i < |rows| ==> SoftwareFlagCol in rows[i] && ToolsCol in rows[i]
    ensures ColumnOf(Filters.Keep(rows, [SoftwareMask]), ToolsCol)
         == SoftwareCourseTools(ColumnOf(rows, SoftwareFlagCol), ColumnOf(rows, ToolsCol))
  {
    if rows != [] {
      var n := |rows| - 1;
      var p := rows[..n];
      var x := rows[n];
      assert rows == p + [x];
      KeepSoftwareTools(p);
      ColumnOfSnoc(p, x, SoftwareFlagCol);
      ColumnOfSnoc(p, x, ToolsCol);
      var flags := ColumnOf(rows, SoftwareFlagCol);
      var tools := ColumnOf(rows, ToolsCol);
      assert flags[..n] == ColumnOf(p, SoftwareFlagCol);
      assert tools[..n] == ColumnOf(p, ToolsCol);
      Filters.MatchesOne(x, SoftwareMask);
      var kept := Filters.Keep(p, [SoftwareMask]);
      if x[SoftwareFlagCol] == Str("是") {
        assert Filters.Keep(rows, [SoftwareMask]) == kept + [x];
        ColumnOfSnoc(kept, x, ToolsCol);
      } else {
        assert Filters.Keep(rows, [SoftwareMask]) == kept;
      }
    }
  }

  /**
   * The software courses `filtered_df[filtered_df['是否有软件实操'] == '是']`: their
   * tool column is exactly the tool cells of the flagged rows, in row order.
   */
  lemma SoftwareCoursesMask(df: Frame)
    requires df.Valid() && SoftwareFlagCol in df.cols && ToolsCol in df.cols
    ensures ToolsCol in Filters.Where(df, [SoftwareMask]).cols
    ensures Filters.Where(df, [SoftwareMask]).cols[ToolsCol]
         == SoftwareCourseTools(df.cols[SoftwareFlagCol], df.cols[ToolsCol])
  {
    var rows := Rows(df);
    Filters.KeepKeys(rows, [SoftwareMask], df.cols.Keys);
    ColumnOfFromRows(df.cols.Keys, Filters.Keep(rows, [SoftwareMask]), ToolsCol);
    KeepSoftwareTools(rows);
    ColumnOfRows(df, SoftwareFlagCol);
    ColumnOfRows(df, ToolsCol);
  }

  /** The innermost loop of the distinct-tool count: adds the kept, stripped pieces of `subs`. */
  method AddKept(acc: set<string>, subs: seq<string>) returns (unique: set<string>)
    ensures unique == acc + Elems(Kept(subs))
  {
    unique := acc;
    for k := 0 to |subs|
      invariant unique == acc + Elems(Kept(subs[..k]))
    {
      assert subs[..k + 1][..k] == subs[..k];
      var t := Trim(subs[k]);
      ElemsAppend(Kept(subs[..k]), if KeepToken(t) then [t] else []);
      if KeepToken(t) {
        assert Elems([t]) == {t} by { assert [t][0] == t; }
        unique := unique + {t};
      }
    }
    assert subs[..|subs|] == subs;
  }

  /** The middle loop of the distinct-tool count: adds the tokens of each comma-separated entry. */
  method AddPieces(acc: set<string>, pieces: seq<string>) returns (unique: set<string>)
    ensures unique == acc + Elems(PieceTokens(pieces))
  {
    unique := acc;
    for j := 0 to |pieces|
      invariant unique == acc + Elems(PieceTokens(pieces[..j]))
    {
      assert pieces[..j + 1][..j] == pieces[..j];
      ElemsAppend(PieceTokens(pieces[..j]), Kept(Split(pieces[j], SubSep)));
      unique := AddKept(unique, Split(pieces[j], SubSep));
    }
    assert pieces[..|pieces|] == pieces;
  }

  /** The distinct-tool count: the number of different tokens, gathered into a set in a loop. */
  method DistinctTools(col: seq<Cell>) returns (count: nat)
    requires TextCells(col)
    ensures count == |Elems(ListTokens(col))|
  {
    var unique: set<string> := {};
    for i := 0 to |col|
      invariant unique == Elems(ListTokens(col[..i]))
    {
      assert col[..i + 1][..i] == col[..i];
      var c := col[i];
      ElemsAppend(ListTokens(col[..i]), ListCellTokens(c));
      if c.Missing? {
        unique := AddPieces(unique, Split(NanText, ListSep));
      } else if c.s != Cleaning.NotProvided {
        unique := AddPieces(unique, Split(c.s, ListSep));
      }
    }
    assert col[..|col|] == col;
    count := |unique|;
  }

  lemma ElemsAppend(a: seq<string>, b: seq<string>)
    ensures Elems(a + b) == Elems(a) + Elems(b)
  {
    var ab := a + b;
    forall x | x in Elems(ab) ensures x in Elems(a) + Elems(b) {
      var i :| 0 <= i < |ab| && ab[i] == x;
      if i < |a| {
        assert a[i] == x;
      } else {
        assert b[i - |a|] == x;
      }
    }
    forall x | x in Elems(a) ensures x in Elems(ab) {
      var i :| 0 <= i < |a| && a[i] == x;
      assert ab[i] == x;
    }
    forall x | x in Elems(b) ensures x in Elems(ab) {
      var i :| 0 <= i < |b| && b[i] == x;
      assert ab[|a| + i] == x;
    }
  }

  /**
   * The distinct-tool count uses the same tokeniser as the tool table: without
   * missing cells it is the number of different tokens the table counts.
   */
  lemma {:induction false} DistinctToolsSameTokens(col: seq<Cell>)
    requires TextCells(col)
    requires forall i :: 0 <= i < |col| ==> col[i] != Missing
    ensures ListTokens(col) == ColumnTokens(col)
    ensures |Elems(ListTokens(col))| == |FirstSeen(ColumnTokens(col))|
  {
    if col != [] {
      DistinctToolsSameTokens(col[..|col| - 1]);
    }
    DistinctCount(ColumnTokens(col));
  }

  /** A missing cell counts as the tool `"nan"`. */
  lemma MissingIsNan()
    ensures ListTokens([Missing]) == ["nan"]
  {
    SingleToken("", NanText, "");
    assert "" + NanText + "" == NanText;
    assert [Missing][..0] == [];
  }

  /** The assessment sentinels checked before stripping. */
  const AssessmentSentinels: seq<string> := [Cleaning.NotProvided, "无", ""]

  /**
   * The assessment items: for each non-missing cell that is not one of the
   * sentinels, its stripped text.
   */
  function AssessmentList(col: seq<Cell>): (items: seq<string>)
    requires TextCells(col)
    ensures |items| <= |col|
    ensures forall k :: 0 <= k < |items| ==> IsTrimmed(items[k])
  {
    if col == [] then []
    else
      var c := col[|col| - 1];
      var rest := AssessmentList(col[..|col| - 1]);
      if c.Str? && c.s !in AssessmentSentinels then
        TrimIsTrimmed(c.s);
        rest + [Trim(c.s)]
      else rest
  }

  /**
   * One cell gives its stripped text when it is a string other than the sentinels,
   * and nothing when it is missing or a sentinel.
   */
  lemma AssessmentListOne(c: Cell)
    requires !c.Num?
    ensures AssessmentList([c]) == if c.Str? && c.s !in AssessmentSentinels then [Trim(c.s)] else []
  {
    assert [c][..0] == [];
  }

  /** The items of two stacked columns are the items of the first followed by those of the second. */
  lemma {:induction false} AssessmentListAppend(a: seq<Cell>, b: seq<Cell>)
    requires TextCells(a) && TextCells(b)
    ensures TextCells(a + b)
    ensures AssessmentList(a + b) == AssessmentList(a) + AssessmentList(b)
  {
    assert TextCells(a + b) by {
      forall i | 0 <= i < |a + b| ensures !(a + b)[i].Num? {
        if i >= |a| { assert (a + b)[i] == b[i - |a|]; }
      }
    }
    if b == [] {
      assert a + b == a;
    } else {
      var p := b[..|b| - 1];
      var c := b[|b| - 1];
      assert TextCells(p);
      AssessmentListAppend(a, p);
      assert (a + b)[..|a + b| - 1] == a + p;
      assert (a + b)[|a + b| - 1] == c;
      var one := if c.Str? && c.s !in AssessmentSentinels then [Trim(c.s)] else [];
      assert AssessmentList(b) == AssessmentList(p) + one;
      assert AssessmentList(a + b) == AssessmentList(a + p) + one;
    }
  }

  /** Collects the assessment items with a loop that appends each kept, stripped cell. */
  method AssessmentItems(col: seq<Cell>) returns (items: seq<string>)
    requires TextCells(col)
    ensures items == AssessmentList(col)
  {
    items := [];
    for i := 0 to |col|
      invariant items == AssessmentList(col[..i])
    {
      assert col[..i + 1][..i] == col[..i];
      var c := col[i];
      if c.Str? && c.s !in AssessmentSentinels {
        items := items + [Trim(c.s)];
      }
    }
    assert col[..|col|] == col;
  }

  /** The assessment table: the ten most frequent items with their counts. */
  function AssessmentTable(col: seq<Cell>): seq<(string, nat)>
    requires TextCells(col)
  {
    MostCommon(AssessmentList(col), TopAssessments)
  }

  /**
   * Without missing cells and sentinels every cell becomes one item, its
   * stripped text, in row order.
   */
  lemma {:induction false} AssessmentListAll(col: seq<Cell>)
    requires forall i :: 0 <= i < |col| ==> col[i].Str? && col[i].s !in AssessmentSentinels
    ensures TextCells(col)
    ensures |AssessmentList(col)| == |col|
    ensures forall i :: 0 <= i < |col| ==> AssessmentList(col)[i] == Trim(col[i].s)
  {
    if col != [] {
      AssessmentListAll(col[..|col| - 1]);
    }
  }

  /** A cell of spaces is not a sentinel before stripping, so it yields the empty item. */
  lemma AssessmentBlank()
    ensures AssessmentList([Str("  ")]) == [""]
  {
    assert [Str("  ")][..0] == [];
    assert Trim("  ") == "";
  }

  /**
   * The assessment table holds at most ten distinct items with their exact
   * counts, in non-increasing count order.
   */
  lemma AssessmentTableFacts(col: seq<Cell>)
    requires TextCells(col)
    ensures |AssessmentTable(col)| <= TopAssessments
    ensures forall i :: 0 <= i < |AssessmentTable(col)| ==>
      AssessmentTable(col)[i].1 == Occurrences(AssessmentList(col), AssessmentTable(col)[i].0)
    ensures forall i, j :: 0 <= i < j < |AssessmentTable(col)| ==>
      AssessmentTable(col)[i].0 != AssessmentTable(col)[j].0 && AssessmentTable(col)[i].1 >= AssessmentTable(col)[j].1
  {
    var l := AssessmentList(col);
    assert AssessmentTable(col) == MostCommon(l, TopAssessments);
    MostCommonLength(l, TopAssessments);
    MostCommonEntries(l, TopAssessments);
  }
}
