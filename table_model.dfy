/**
 * The table structure the engine works on: columns with SQL types, functional and
 * multi-valued dependencies, and tables with their keys and sample rows
 * (backend/app/models/table_model.py).
 */
module TableModel {
  import opened Strings

  datatype Option<T> = None | Some(value: T)

  /** The SQL types a column can be given. */
  datatype DataType = Integer | BigInt | Decimal | Varchar | Text | Date | DateTime | Boolean

  /** The enum member's value: the SQL spelling of the type. */
  function TypeName(t: DataType): string
  {
    match t
    case Integer => "INT"
    case BigInt => "BIGINT"
    case Decimal => "DECIMAL"
    case Varchar => "VARCHAR"
    case Text => "TEXT"
    case Date => "DATE"
    case DateTime => "DATETIME"
    case Boolean => "BOOLEAN"
  }

  /**
   * A cell value of a sample row. `Null` is a missing value (NaN); `Str` is a Python string;
   * `Scalar` is any other atomic value (number, boolean, timestamp), and `Collection` a list,
   * dict or set. `shown` is what `str()` gives for the value.
   */
  datatype Value = Null | Str(s: string) | Scalar(shown: string) | Collection(shown: string)

  /** One entry of a row dictionary; a row lists its entries in the dictionary's key order. */
  datatype Cell = Cell(column: string, value: Value)
  type Row = seq<Cell>

  datatype Column = Column(
    name: string,
    dataType: DataType,
    maxLength: Option<int>,
    nullable: bool,
    unique: bool,
    sampleValues: seq<Value>)

  /** Python's truth value of `max_length`: set and non-zero. */
  predicate HasLength(c: Column)
  {
    c.maxLength.Some? && c.maxLength.value != 0
  }

  /** "(n)" for a VARCHAR column whose length is set, otherwise nothing. */
  function LengthPart(c: Column): (r: string)
    ensures r != "" <==> HasLength(c) && c.dataType == Varchar
    ensures r != "" ==> r[0] == '(' && r[|r| - 1] == ')'
  {
    if HasLength(c) && c.dataType == Varchar then "(" + IntToString(c.maxLength.value) + ")" else ""
  }

  /** The backticked name and the type: how every column definition begins. */
  function SqlHead(c: Column): string
  {
    "`" + c.name + "` " + TypeName(c.dataType)
  }

  /** The SQL column definition, built piece by piece. */
  method ToSql(c: Column) returns (sql: string)
    ensures sql == SqlHead(c) + LengthPart(c)
                   + (if c.nullable then "" else " NOT NULL")
                   + (if c.unique then " UNIQUE" else "")
  {
    sql := "`" + c.name + "` " + TypeName(c.dataType);
    if HasLength(c) && c.dataType == Varchar {
      sql := sql + ("(" + IntToString(c.maxLength.value) + ")");
    } else {
      ConcatEmpty(sql);
    }
    if !c.nullable {
      sql := sql + " NOT NULL";
    } else {
      ConcatEmpty(sql);
    }
    if c.unique {
      sql := sql + " UNIQUE";
    } else {
      ConcatEmpty(sql);
    }
  }

  /** A definition ends in " UNIQUE" exactly when the column is unique. */
  lemma ToSqlUniqueSuffix(c: Column, sql: string)
    requires sql == SqlHead(c) + LengthPart(c)
                    + (if c.nullable then "" else " NOT NULL")
                    + (if c.unique then " UNIQUE" else "")
    ensures EndsWith(sql, " UNIQUE") <==> c.unique
  {
    var body := SqlHead(c) + LengthPart(c) + (if c.nullable then "" else " NOT NULL");
    if !c.unique {
      assert sql == body;
      var lp := LengthPart(c);
      if !c.nullable {
        assert sql[|sql| - 2] == 'L';
      } else if lp != "" {
        assert sql == SqlHead(c) + lp;
        assert sql[|sql| - 1] == ')';
      } else {
        assert sql == "`" + c.name + "` " + TypeName(c.dataType);
        var t := TypeName(c.dataType);
        assert sql[|sql| - |t|..] == t;
        match c.dataType
        case Date =>
          assert sql[|sql| - 6] == '`';
        case DateTime =>
          assert sql[|sql| - 7] == t[|t| - 7] == 'A';
        case _ =>
          assert sql[|sql| - 1] == t[|t| - 1] != 'E';
      }
    }
  }

  /** A functional dependency determinant -> dependent, with the detector's confidence. */
  datatype FunctionalDependency = FunctionalDependency(determinant: set<string>, dependent: set<string>, confidence: real)

  /** A multi-valued dependency determinant ->> dependent, with the detector's confidence. */
  datatype MultiValuedDependency = MultiValuedDependency(determinant: set<string>, dependent: set<string>, confidence: real)

  /** "{a, b}": sorted names, comma separated, in braces. */
  function NameSet(names: set<string>): string
  {
    "{" + Join(Sorted(names), ", ") + "}"
  }

  /** The name part of `str(fd)`: "{det} -> {dep}". */
  function FdText(fd: FunctionalDependency): string
  {
    NameSet(fd.determinant) + " -> " + NameSet(fd.dependent)
  }

  /** The name part of `str(mvd)`: "{det} ->> {dep}". */
  function MvdText(mvd: MultiValuedDependency): string
  {
    NameSet(mvd.determinant) + " ->> " + NameSet(mvd.dependent)
  }

  /** A one-name set is listed as that name alone. */
  lemma SortedOfOne(a: string)
    ensures Sorted({a}) == [a]
  {
    assert Least({a}) == a;
    assert {a} - {a} == {};
    assert Sorted({a}) == [a] + Sorted({});
  }

  /** A one-name set prints as the name in braces. */
  lemma NameSetOfOne(a: string)
    ensures NameSet({a}) == "{" + a + "}"
  {
    SortedOfOne(a);
    assert Join([a], ", ") == a;
  }

  /** A two-name set prints as the smaller name, ", ", the larger, in braces. */
  lemma NameSetOfTwo(a: string, b: string)
    requires Less(a, b)
    ensures NameSet({a, b}) == "{" + a + ", " + b + "}"
  {
    LessIrreflexive(a);
    LessAsymmetric();
    assert Least({a, b}) == a;
    assert {a, b} - {a} == {b};
    SortedOfOne(b);
    assert Sorted({a, b}) == [a] + Sorted({b});
    assert [a, b][1..] == [b];
    assert Join([a, b], ", ") == a + ", " + Join([b], ", ");
  }

  /**
   * The concrete format of `str(fd)` and `str(mvd)` without the confidence: a two-column
   * determinant listed in ascending order and a one-column dependent, each in braces,
   * around the arrow "->" or "->>".
   */
  lemma FdAndMvdTextFormat(a: string, b: string, d: string, c: real)
    requires Less(a, b)
    ensures FdText(FunctionalDependency({a, b}, {d}, c)) == "{" + a + ", " + b + "} -> {" + d + "}"
    ensures FdText(FunctionalDependency({b, a}, {d}, c)) == FdText(FunctionalDependency({a, b}, {d}, c))
    ensures MvdText(MultiValuedDependency({a, b}, {d}, c)) == "{" + a + ", " + b + "} ->> {" + d + "}"
  {
    NameSetOfTwo(a, b);
    NameSetOfOne(d);
    assert {b, a} == {a, b};
  }

  /** The two arrows keep an FD and an MVD over the same sets apart. */
  lemma {:induction false} FdAndMvdTextsDiffer(det: set<string>, dep: set<string>, c: real)
    ensures FdText(FunctionalDependency(det, dep, c)) != MvdText(MultiValuedDependency(det, dep, c))
  {
    var head := NameSet(det) + " ->";
    var f := FdText(FunctionalDependency(det, dep, c));
    var m := MvdText(MultiValuedDependency(det, dep, c));
    assert f == head + " " + NameSet(dep);
    assert m == head + "> " + NameSet(dep);
    assert f[|head|] == ' ' && m[|head|] == '>';
  }

  datatype Table = Table(
    name: string,
    columns: seq<Column>,
    primaryKey: set<string>,
    candidateKeys: seq<set<string>>,
    foreignKeys: map<string, (string, string)>,
    functionalDependencies: seq<FunctionalDependency>,
    multiValuedDependencies: seq<MultiValuedDependency>,
    data: seq<Row>)

  /** `Table(name=..., columns=...)`: every other field takes its default, empty value. */
  function NewTable(name: string, columns: seq<Column>, primaryKey: set<string>): (t: Table)
    ensures t.name == name && t.columns == columns && t.primaryKey == primaryKey
    ensures t.candidateKeys == [] && t.foreignKeys == map[]
    ensures t.functionalDependencies == [] && t.multiValuedDependencies == [] && t.data == []
  {
    Table(name, columns, primaryKey, [], map[], [], [], [])
  }

  /** `get_column_names()`: the column names, in column order. */
  function ColumnNames(t: Table): (names: seq<string>)
    ensures |names| == |t.columns|
    ensures forall i :: 0 <= i < |t.columns| ==> names[i] == t.columns[i].name
  {
    seq(|t.columns|, i requires 0 <= i < |t.columns| => t.columns[i].name)
  }

  /** The first column with the given name, if any. */
  function ColumnNamed(columns: seq<Column>, name: string): (r: Option<Column>)
    ensures r.None? <==> forall i :: 0 <= i < |columns| ==> columns[i].name != name
    ensures r.Some? ==> exists i :: 0 <= i < |columns| && columns[i] == r.value && r.value.name == name
                                    && forall j :: 0 <= j < i ==> columns[j].name != name
  {
    if columns == [] then None
    else if columns[0].name == name then Some(columns[0])
    else
      var r := ColumnNamed(columns[1..], name);
      assert forall i :: 1 <= i < |columns| ==> columns[i] == columns[1..][i - 1];
      r
  }

  /** `get_column(name)`: a linear search for the first column with that name. */
  method GetColumn(t: Table, name: string) returns (r: Option<Column>)
    ensures r == ColumnNamed(t.columns, name)
    ensures r.Some? ==> r.value in t.columns && r.value.name == name
  {
    var i := 0;
    while i < |t.columns|
      invariant 0 <= i <= |t.columns|
      invariant ColumnNamed(t.columns[i..], name) == ColumnNamed(t.columns, name)
    {
      if t.columns[i].name == name {
        return Some(t.columns[i]);
      }
      assert t.columns[i..][1..] == t.columns[i + 1..];
      i := i + 1;
    }
    return None;
  }

  /** A name has a column exactly when it is among the column names. */
  lemma ColumnNamedIffListed(t: Table, name: string)
    ensures ColumnNamed(t.columns, name).Some? <==> name in ColumnNames(t)
  {
    var names := ColumnNames(t);
    if name in names {
      var i :| 0 <= i < |names| && names[i] == name;
      assert t.columns[i].name == name;
    }
  }
}
