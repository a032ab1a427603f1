/**
 * Turning the sheets of a workbook into tables (backend/app/services/excel_parser.py):
 * the SQL-safe name cleaning, the per-column analysis with its VARCHAR length clamp, and
 * the sheet loop that skips metadata and empty sheets.
 */
module ExcelParser {
  import opened Strings
  import opened Seqs
  import opened TableModel
  import opened Frames

  // ---------------------------------------------------------------------------------------
  // Name cleaning
  // ---------------------------------------------------------------------------------------

  /** The regular-expression class `\w` on ASCII: letters, digits and the underscore. */
  predicate IsWordChar(c: char)
  {
    'a' <= c <= 'z' || 'A' <= c <= 'Z' || IsDigit(c) || c == '_'
  }

  /** The class `\s` on ASCII: space, tab, line feed, vertical tab, form feed, carriage return, and the separators 0x1C-0x1F. */
  predicate IsSpaceChar(c: char)
  {
    c == ' ' || 9 <= c as int <= 13 || 28 <= c as int <= 31
  }

  /** The characters a cleaned name is made of. */
  predicate IsNameChar(c: char)
  {
    'a' <= c <= 'z' || IsDigit(c) || c == '_'
  }

  /** The shape every cleaned name has. */
  predicate IsCleanName(s: string)
  {
    && s != []
    && !IsDigit(s[0])
    && s[0] != '_'
    && s[|s| - 1] != '_'
    && forall c :: c in s ==> IsNameChar(c)
  }

  /** `re.sub(r'[^\w\s]', '', s)`: drops every character that is neither a word character nor whitespace. */
  function RemoveSpecial(s: string): (r: string)
    ensures forall c :: c in r ==> c in s && (IsWordChar(c) || IsSpaceChar(c))
    ensures forall c :: c in s && (IsWordChar(c) || IsSpaceChar(c)) ==> c in r
    ensures (forall c :: c in s ==> IsWordChar(c) || IsSpaceChar(c)) ==> r == s
    ensures r == [] <==> forall c :: c in s ==> !IsWordChar(c) && !IsSpaceChar(c)
  {
    if s == [] then []
    else
      var rest := RemoveSpecial(s[1..]);
      assert forall c :: c in s <==> c == s[0] || c in s[1..];
      if IsWordChar(s[0]) || IsSpaceChar(s[0]) then [s[0]] + rest else rest
  }

  /** What is left of `s` after its leading whitespace. */
  function SkipSpace(s: string): (r: string)
    ensures |r| <= |s|
    ensures forall c :: c in r ==> c in s
    ensures r == [] || !IsSpaceChar(r[0])
  {
    if s != [] && IsSpaceChar(s[0]) then
      assert forall c :: c in s[1..] ==> c in s;
      SkipSpace(s[1..])
    else s
  }

  /** `re.sub(r'\s+', '_', s)`: each maximal run of whitespace becomes one underscore. */
  function CollapseSpace(s: string): (r: string)
    ensures |r| <= |s|
    ensures forall c :: c in r ==> c == '_' || (c in s && !IsSpaceChar(c))
    ensures (forall c :: c in s ==> !IsSpaceChar(c)) ==> r == s
    decreases |s|
  {
    if s == [] then []
    else
      assert forall c :: c in s[1..] ==> c in s;
      if IsSpaceChar(s[0]) then "_" + CollapseSpace(SkipSpace(s[1..]))
      else [s[0]] + CollapseSpace(s[1..])
  }

  /** `s.lstrip('_')`. */
  function StripLeft(s: string): (r: string)
    ensures forall c :: c in r ==> c in s
    ensures r == [] || r[0] != '_'
    ensures r == [] <==> forall c :: c in s ==> c == '_'
    ensures s == [] || s[0] != '_' ==> r == s
    ensures r != [] && s != [] ==> r[|r| - 1] == s[|s| - 1]
  {
    if s != [] && s[0] == '_' then
      assert forall c :: c in s <==> c == s[0] || c in s[1..];
      StripLeft(s[1..])
    else
      assert s != [] ==> s[0] in s;
      s
  }

  /** `s.rstrip('_')`. */
  function StripRight(s: string): (r: string)
    ensures forall c :: c in r ==> c in s
    ensures r == [] || r[|r| - 1] != '_'
    ensures r == [] <==> forall c :: c in s ==> c == '_'
    ensures s == [] || s[|s| - 1] != '_' ==> r == s
    ensures r != [] && s != [] ==> r[0] == s[0]
  {
    if s != [] && s[|s| - 1] == '_' then
      var init := s[..|s| - 1];
      assert forall c :: c in s <==> c == s[|s| - 1] || c in init by {
        assert s == init + [s[|s| - 1]];
      }
      StripRight(init)
    else
      assert s != [] ==> s[|s| - 1] in s;
      s
  }

  /** `s.strip('_')`: no underscore is left at either end, and only a string of underscores becomes empty. */
  function StripUnderscores(s: string): (r: string)
    ensures forall c :: c in r ==> c in s
    ensures r != [] ==> r[0] != '_' && r[|r| - 1] != '_'
    ensures r == [] <==> forall c :: c in s ==> c == '_'
    ensures s != [] && s[0] != '_' && s[|s| - 1] != '_' ==> r == s
  {
    var left := StripLeft(s);
    assert left != [] ==> left[0] in left;
    StripRight(left)
  }

  /** Lowercasing a string of word characters leaves only name characters. */
  lemma LowerWords(words: string)
    requires forall c :: c in words ==> IsWordChar(c)
    ensures forall c :: c in Lower(words) ==> IsNameChar(c)
  {
    var lower := Lower(words);
    forall i | 0 <= i < |lower|
      ensures IsNameChar(lower[i])
    {
      assert words[i] in words;
    }
  }

  /** The cleaned name before the digit prefix and the fallback: word characters only, lowercase, no outer underscores. */
  function Cleaned(name: string): (r: string)
    ensures forall c :: c in r ==> IsNameChar(c)
    ensures r != [] ==> r[0] != '_' && r[|r| - 1] != '_'
  {
    var words := CollapseSpace(RemoveSpecial(name));
    assert forall c :: c in words ==> IsWordChar(c);
    var lower := Lower(words);
    LowerWords(words);
    StripUnderscores(lower)
  }

  /**
   * `_clean_name(name)`: remove special characters, turn whitespace runs into "_", lowercase,
   * strip outer "_", prefix "col_" before a leading digit, and fall back to "unnamed".
   */
  function CleanName(name: string): (r: string)
    ensures IsCleanName(r)
  {
    var clean := Cleaned(name);
    if clean == [] then "unnamed"
    else if IsDigit(clean[0]) then
      PrefixedShape(clean);
      "col_" + clean
    else clean
  }

  /** "col_" before a name of name characters with no underscore at its end gives a clean name. */
  lemma PrefixedShape(clean: string)
    requires clean != [] && clean[|clean| - 1] != '_'
    requires forall c :: c in clean ==> IsNameChar(c)
    ensures IsCleanName("col_" + clean)
  {
    var r := "col_" + clean;
    assert forall c :: c in r ==> c in "col_" || c in clean;
  }

  /** A name that already has the cleaned shape is left as it is. */
  lemma CleanNameFixed(s: string)
    requires IsCleanName(s)
    ensures CleanName(s) == s
  {
    assert forall c :: c in s ==> IsWordChar(c) && !IsSpaceChar(c);
    assert RemoveSpecial(s) == s;
    assert CollapseSpace(s) == s;
    assert forall i :: 0 <= i < |s| ==> !IsUpper(s[i]) by {
      assert forall i :: 0 <= i < |s| ==> s[i] in s;
    }
    assert Lower(s) == s;
  }

  /** Cleaning is idempotent: a cleaned name cleans to itself. */
  lemma CleanNameIdempotent(name: string)
    ensures CleanName(CleanName(name)) == CleanName(name)
  {
    CleanNameFixed(CleanName(name));
  }

  /** Only characters outside `\w` and `\s` vanish entirely; a name of them alone becomes "unnamed". */
  lemma CleanNameFallback(name: string)
    requires forall c :: c in name ==> !IsWordChar(c) && !IsSpaceChar(c)
    ensures CleanName(name) == "unnamed"
  {
    assert RemoveSpecial(name) == [];
  }

  // ---------------------------------------------------------------------------------------
  // Column analysis
  // ---------------------------------------------------------------------------------------

  /** `str.len().max()`: the length of the longest rendered value. */
  function MaxLength(rendered: seq<string>): (m: nat)
    requires rendered != []
    ensures forall i :: 0 <= i < |rendered| ==> |rendered[i]| <= m
    ensures exists i :: 0 <= i < |rendered| && |rendered[i]| == m
  {
    if |rendered| == 1 then |rendered[0]|
    else
      var rest := MaxLength(rendered[1..]);
      assert forall i :: 1 <= i < |rendered| ==> rendered[i] == rendered[1..][i - 1];
      if |rendered[0]| >= rest then |rendered[0]| else rest
  }

  /** The values of a column as `astype(str)` renders them. */
  function Rendered(series: seq<Value>): (r: seq<string>)
    ensures |r| == |series|
    ensures forall i :: 0 <= i < |series| ==> r[i] == Render(series[i])
  {
    seq(|series|, i requires 0 <= i < |series| => Render(series[i]))
  }

  /**
   * The VARCHAR length: the longest rendered value, raised to at least 50 and cut to at most 255.
   * An empty column has no maximum (the source fails on it); a column of a non-empty sheet is never empty.
   */
  function VarcharLength(series: seq<Value>): (n: int)
    requires series != []
    ensures 50 <= n <= 255
    ensures forall v :: v in series ==> |Render(v)| <= n || n == 255
    ensures n == 50 || exists v :: v in series && |Render(v)| >= n
  {
    var rendered := Rendered(series);
    var m := MaxLength(rendered);
    var i :| 0 <= i < |rendered| && |rendered[i]| == m;
    assert series[i] in series;
    assert forall v :: v in series ==> |Render(v)| <= m by {
      forall v | v in series
        ensures |Render(v)| <= m
      {
        var j :| 0 <= j < |series| && series[j] == v;
        assert rendered[j] == Render(v);
      }
    }
    var atLeast := if m > 50 then m else 50;
    if atLeast < 255 then atLeast else 255
  }

  /** A column whose longest value fits the clamp gets exactly that length. */
  lemma VarcharLengthFits(series: seq<Value>, v: Value)
    requires series != [] && v in series
    requires forall w :: w in series ==> |Render(w)| <= |Render(v)|
    requires 50 <= |Render(v)| <= 255
    ensures VarcharLength(series) == |Render(v)|
  {
  }

  /** `series.dropna()`. */
  function NonNull(series: seq<Value>): (r: seq<Value>)
    ensures |r| <= |series|
    ensures forall v :: v in r <==> v in series && v != Null
    ensures Null !in series ==> r == series
  {
    if series == [] then []
    else
      var rest := NonNull(series[1..]);
      assert forall v :: v in series <==> v == series[0] || v in series[1..];
      if series[0] == Null then rest else [series[0]] + rest
  }

  /** `s[:n]` on a list. */
  function FirstAtMost<T>(s: seq<T>, n: nat): (r: seq<T>)
    ensures |r| <= n && |r| <= |s| && r == s[..|r|]
    ensures |s| <= n ==> r == s
    ensures |s| >= n ==> |r| == n
  {
    if |s| <= n then s else s[..n]
  }

  /**
   * `len(series.unique()) == len(series.dropna())`: the distinct values, NaN counted once
   * among them, are as many as the non-null values.
   */
  predicate UniqueFlag(series: seq<Value>)
  {
    |Elements(series)| == |NonNull(series)|
  }

  /** The distinct values are the distinct non-null values, plus NaN when there is one. */
  lemma ElementsNonNull(series: seq<Value>)
    ensures Elements(series) == Elements(NonNull(series)) + (if Null in series then {Null} else {})
    ensures Null !in Elements(NonNull(series))
  {
  }

  /** Without nulls the flag means exactly that no value repeats. */
  lemma UniqueFlagWithoutNulls(series: seq<Value>)
    requires Null !in series
    ensures UniqueFlag(series) <==> Distinct(series)
  {
    if UniqueFlag(series) {
      CardDistinct(series);
    } else if Distinct(series) {
      DistinctCard(series);
    }
  }

  /**
   * With a null the NaN entry of `unique()` is matched against one non-null value, so the flag
   * holds exactly when the non-null values have one repeat.
   */
  lemma UniqueFlagWithNulls(series: seq<Value>)
    requires Null in series
    ensures UniqueFlag(series) <==> |Elements(NonNull(series))| + 1 == |NonNull(series)|
  {
    ElementsNonNull(series);
  }

  /** So a nullable column of distinct values is not flagged unique, and one with a repeat is. */
  lemma UniqueFlagNullQuirk()
    ensures !UniqueFlag([Scalar("1"), Scalar("2"), Null])
    ensures UniqueFlag([Scalar("1"), Scalar("1"), Null])
  {
    var distinct := [Scalar("1"), Scalar("2"), Null];
    var repeat := [Scalar("1"), Scalar("1"), Null];
    assert NonNull(distinct) == [Scalar("1"), Scalar("2")];
    assert Elements(distinct) == {Scalar("1"), Scalar("2"), Null};
    assert NonNull(repeat) == [Scalar("1"), Scalar("1")];
    assert Elements(repeat) == {Scalar("1"), Null};
  }

  /**
   * `_analyze_column`: the cleaned name, the inferred type, the clamped length for VARCHAR only,
   * nullability, the uniqueness flag and the first five non-null values as samples.
   */
  function AnalyzeColumn(name: string, series: seq<Value>, dataType: DataType): (c: Column)
    requires dataType == Varchar ==> series != []
    ensures IsCleanName(c.name) && c.name == CleanName(name) && c.dataType == dataType
    ensures c.maxLength.Some? <==> dataType == Varchar
    ensures c.maxLength.Some? ==> 50 <= c.maxLength.value <= 255
    ensures c.nullable <==> Null in series
    ensures c.unique <==> UniqueFlag(series)
    ensures |c.sampleValues| <= 5 && Null !in c.sampleValues
    ensures forall v :: v in c.sampleValues ==> v in series
    ensures |NonNull(series)| >= 5 ==> |c.sampleValues| == 5
    ensures |c.sampleValues| <= |NonNull(series)| && c.sampleValues == NonNull(series)[..|c.sampleValues|]
    ensures |NonNull(series)| < 5 ==> c.sampleValues == NonNull(series)
  {
    var maxLength := if dataType == Varchar then Some(VarcharLength(series)) else None;
    var samples := FirstAtMost(NonNull(series), 5);
    assert forall v :: v in samples ==> v in NonNull(series);
    Column(CleanName(name), dataType, maxLength, Null in series, UniqueFlag(series), samples)
  }

  // ---------------------------------------------------------------------------------------
  // Sheets
  // ---------------------------------------------------------------------------------------

  /** One worksheet as pandas reads it: its name, its header row and its records. */
  datatype Sheet = Sheet(name: string, header: seq<string>, rows: seq<Row>)

  /** The most rows a table keeps for analysis. */
  const MaxRows: nat := 100

  /** `sheet_name.lower() in ['metadata', 'dependencies', 'info']`. */
  predicate SkipSheet(name: string)
  {
    Lower(name) in ["metadata", "dependencies", "info"]
  }

  /** `df.empty`: no rows or no columns. */
  predicate EmptySheet(sheet: Sheet)
  {
    sheet.rows == [] || sheet.header == []
  }

  /** A sheet that is neither skipped nor empty: `parse()` makes a table of it. */
  predicate Kept(sheet: Sheet)
  {
    !SkipSheet(sheet.name) && !EmptySheet(sheet)
  }

  /** `_analyze_column(df, h)` for the header entry `h`. */
  function ColumnFor(sheet: Sheet, infer: seq<Value> -> DataType, h: string): Column
    requires sheet.rows != []
  {
    var series := ColumnValues(sheet.rows, h);
    AnalyzeColumn(h, series, infer(series))
  }

  /** The analysis of every header entry, in header order. */
  function SheetColumns(sheet: Sheet, infer: seq<Value> -> DataType): seq<Column>
    requires sheet.rows != []
  {
    MapSeq(sheet.header, h => ColumnFor(sheet, infer, h))
  }

  /** The table a non-empty sheet becomes. */
  function SheetTable(sheet: Sheet, infer: seq<Value> -> DataType): Table
    requires !EmptySheet(sheet)
  {
    NewTable(CleanName(sheet.name), SheetColumns(sheet, infer), {})
      .(data := FirstAtMost(sheet.rows, MaxRows))
  }

  /**
   * A sheet's table has the cleaned sheet name, one column per header entry named after it,
   * no key or dependency yet, and the first 100 records at most.
   */
  lemma SheetTableShape(sheet: Sheet, infer: seq<Value> -> DataType)
    requires !EmptySheet(sheet)
    ensures var t := SheetTable(sheet, infer);
      && IsCleanName(t.name) && t.name == CleanName(sheet.name)
      && |t.columns| == |sheet.header|
      && (forall i :: 0 <= i < |t.columns| ==> t.columns[i].name == CleanName(sheet.header[i]))
      && t.primaryKey == {} && t.functionalDependencies == [] && t.multiValuedDependencies == []
      && |t.data| <= MaxRows && t.data == sheet.rows[..|t.data|]
      && (|sheet.rows| >= MaxRows ==> |t.data| == MaxRows)
  {
    var t := SheetTable(sheet, infer);
    forall i | 0 <= i < |t.columns|
      ensures t.columns[i].name == CleanName(sheet.header[i])
    {
      assert t.columns[i] == ColumnFor(sheet, infer, sheet.header[i]);
    }
  }

  /** `_dataframe_to_table`: one analysed column per header entry, then the first 100 records. */
  method DataframeToTable(sheet: Sheet, infer: seq<Value> -> DataType) returns (t: Table)
    requires !EmptySheet(sheet)
    ensures t == SheetTable(sheet, infer)
  {
    var columns: seq<Column> := [];
    var i := 0;
    while i < |sheet.header|
      invariant 0 <= i <= |sheet.header|
      invariant columns == MapSeq(sheet.header[..i], h => ColumnFor(sheet, infer, h))
    {
      var series := ColumnValues(sheet.rows, sheet.header[i]);
      MapSeqNext(sheet.header, i, h => ColumnFor(sheet, infer, h));
      columns := columns + [AnalyzeColumn(sheet.header[i], series, infer(series))];
      i := i + 1;
    }
    assert sheet.header[..i] == sheet.header;
    t := NewTable(CleanName(sheet.name), columns, {}).(data := FirstAtMost(sheet.rows, MaxRows));
  }

  /** The tables of the sheets: one per sheet that is neither skipped nor empty, in sheet order. */
  function SheetTables(sheets: seq<Sheet>, infer: seq<Value> -> DataType): seq<Table>
  {
    if sheets == [] then []
    else
      var init := SheetTables(sheets[..|sheets| - 1], infer);
      var sheet := sheets[|sheets| - 1];
      if !Kept(sheet) then init else init + [SheetTable(sheet, infer)]
  }

  lemma SheetTablesSnoc(sheets: seq<Sheet>, sheet: Sheet, infer: seq<Value> -> DataType)
    ensures SheetTables(sheets + [sheet], infer)
            == if !Kept(sheet) then SheetTables(sheets, infer)
               else SheetTables(sheets, infer) + [SheetTable(sheet, infer)]
  {
    assert (sheets + [sheet])[..|sheets|] == sheets;
  }

  /** `parse()`: walks the sheets, skipping metadata and empty ones, and collects one table per remaining sheet. */
  method Parse(sheets: seq<Sheet>, infer: seq<Value> -> DataType) returns (tables: seq<Table>)
    ensures tables == SheetTables(sheets, infer)
  {
    tables := [];
    var i := 0;
    while i < |sheets|
      invariant 0 <= i <= |sheets|
      invariant tables == SheetTables(sheets[..i], infer)
    {
      var sheet := sheets[i];
      SheetTablesSnoc(sheets[..i], sheet, infer);
      assert sheets[..i + 1] == sheets[..i] + [sheet];
      if Kept(sheet) {
        var t := DataframeToTable(sheet, infer);
        tables := tables + [t];
      }
      i := i + 1;
    }
    assert sheets[..i] == sheets;
  }

  /** Every table is the table of a kept sheet, and there are no more tables than sheets. */
  lemma {:induction false} SheetTablesSound(sheets: seq<Sheet>, infer: seq<Value> -> DataType)
    ensures |SheetTables(sheets, infer)| <= |sheets|
    ensures forall t :: t in SheetTables(sheets, infer) ==> exists s :: s in sheets && Kept(s) && t == SheetTable(s, infer)
  {
    if sheets != [] {
      var init := sheets[..|sheets| - 1];
      var last := sheets[|sheets| - 1];
      SheetTablesSound(init, infer);
      SheetTablesSnoc(init, last, infer);
      assert sheets == init + [last];
      forall t | t in SheetTables(sheets, infer)
        ensures exists s :: s in sheets && Kept(s) && t == SheetTable(s, infer)
      {
        if t in SheetTables(init, infer) {
          var s :| s in init && Kept(s) && t == SheetTable(s, infer);
          assert s in sheets;
        } else {
          assert last in sheets;
        }
      }
    }
  }

  /** Every kept sheet has its table among the tables. */
  lemma {:induction false} SheetTablesComplete(sheets: seq<Sheet>, infer: seq<Value> -> DataType)
    ensures forall s :: s in sheets && Kept(s) ==> SheetTable(s, infer) in SheetTables(sheets, infer)
  {
    if sheets != [] {
      var init := sheets[..|sheets| - 1];
      var last := sheets[|sheets| - 1];
      SheetTablesComplete(init, infer);
      SheetTablesSnoc(init, last, infer);
      assert sheets == init + [last];
    }
  }

  /** Each table `parse()` returns has a cleaned name and at most 100 rows. */
  lemma SheetTablesBounded(sheets: seq<Sheet>, infer: seq<Value> -> DataType)
    ensures forall t :: t in SheetTables(sheets, infer) ==> IsCleanName(t.name) && |t.data| <= MaxRows
  {
    SheetTablesSound(sheets, infer);
    forall t | t in SheetTables(sheets, infer)
      ensures IsCleanName(t.name) && |t.data| <= MaxRows
    {
      var s :| s in sheets && Kept(s) && t == SheetTable(s, infer);
      SheetTableShape(s, infer);
    }
  }

  /** The metadata sheets are skipped whatever their capitalisation; a sheet of data is not. */
  lemma SkipSheetExamples()
    ensures SkipSheet("INFO") && SkipSheet("Info")
    ensures !SkipSheet("Orders")
  {
    var upper := Lower("INFO");
    assert upper[0] == 'i' && upper[1] == 'n' && upper[2] == 'f' && upper[3] == 'o';
    assert upper == "info";
    var title := Lower("Info");
    assert title[0] == 'i' && title[1] == 'n' && title[2] == 'f' && title[3] == 'o';
    assert title == "info";
    assert |Lower("Orders")| == 6;
  }
}
