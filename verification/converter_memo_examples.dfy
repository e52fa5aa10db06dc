/** A worked registry in which remembering one answer changes another.

    `getConverter` stores what its search found under the exact
    `(source, target)` pair. When that column class is new, the stored cell
    also appends a column to `columnKeySet`, and a column's position there is
    what orders the search within a row. So a later query for a different
    pair can find a different converter than it would have found before. */
module ConverterMemoExamples {
  import opened Wrappers
  import opened JavaTypes
  import opened OrderedMaps
  import opened Converters

  /** `Long -> Integer`, then `Object -> Object` and `Object -> String`. */
  const longRow: OMap<JType, Converter> := [(TInteger, Registered("integerOfLong"))]
  const objectRow: OMap<JType, Converter> := [(TObject, Registered("anyToAny")), (TString, Registered("anyToText"))]
  const before: Registry := [(TLong, longRow), (TObject, objectRow)]

  /** The same registry after `Long -> String` has been remembered. */
  const longRowAfter: OMap<JType, Converter> := [(TInteger, Registered("integerOfLong")), (TString, Registered("anyToAny"))]
  const after: Registry := [(TLong, longRowAfter), (TObject, objectRow)]

  /** One step of collecting column keys: a key joins the end unless already there. */
  lemma AppendOne(acc: seq<JType>, c: JType, rest: seq<JType>)
    ensures AppendNew(acc, [c] + rest) == AppendNew(if c in acc then acc else acc + [c], rest)
  {
    assert ([c] + rest)[1..] == rest;
  }

  /** One step over the rows: a row's keys are appended in its own order. */
  lemma ColumnsOne(row: (JType, OMap<JType, Converter>), rows: Registry, acc: seq<JType>)
    ensures ColumnsFrom([row] + rows, acc) == ColumnsFrom(rows, AppendNew(acc, Keys(row.1)))
  {
    assert ([row] + rows)[1..] == rows;
  }

  lemma RowKeys()
    ensures Keys(longRow) == [TInteger] && Keys(longRowAfter) == [TInteger, TString]
    ensures Keys(objectRow) == [TObject, TString]
    ensures Keys(before) == [TLong, TObject] && Keys(after) == [TLong, TObject]
  {}

  lemma AppendedBefore()
    ensures AppendNew([], [TInteger]) == [TInteger]
    ensures AppendNew([TInteger], [TObject, TString]) == [TInteger, TObject, TString]
  {
    AppendOne([], TInteger, []);
    assert [TInteger] + [] == [TInteger];
    AppendOne([TInteger], TObject, [TString]);
    AppendOne([TInteger, TObject], TString, []);
    assert [TString] + [] == [TString];
    assert [TObject] + [TString] == [TObject, TString];
  }

  lemma ColumnsBefore()
    ensures ColumnKeys(before) == [TInteger, TObject, TString]
  {
    RowKeys();
    AppendedBefore();
    ColumnsOne((TLong, longRow), [(TObject, objectRow)], []);
    ColumnsOne((TObject, objectRow), [], [TInteger]);
    assert before == [(TLong, longRow)] + [(TObject, objectRow)];
    assert [(TObject, objectRow)] == [(TObject, objectRow)] + [];
  }

  lemma AppendedAfter()
    ensures AppendNew([], [TInteger, TString]) == [TInteger, TString]
    ensures AppendNew([TInteger, TString], [TObject, TString]) == [TInteger, TString, TObject]
  {
    AppendOne([], TInteger, [TString]);
    AppendOne([TInteger], TString, []);
    assert [TString] + [] == [TString];
    assert [TInteger] + [TString] == [TInteger, TString];
    AppendOne([TInteger, TString], TObject, [TString]);
    assert TString in [TInteger, TString, TObject];
    AppendOne([TInteger, TString, TObject], TString, []);
    assert [TObject] + [TString] == [TObject, TString];
  }

  /** `String` moved ahead of `Object`: the `Long` row now lists it. */
  lemma ColumnsAfter()
    ensures ColumnKeys(after) == [TInteger, TString, TObject]
  {
    RowKeys();
    AppendedAfter();
    ColumnsOne((TLong, longRowAfter), [(TObject, objectRow)], []);
    ColumnsOne((TObject, objectRow), [], [TInteger, TString]);
    assert after == [(TLong, longRowAfter)] + [(TObject, objectRow)];
    assert [(TObject, objectRow)] == [(TObject, objectRow)] + [];
  }

  lemma CellsOfExamples()
    ensures Cell(before, TLong, TString) == None && Cell(before, TLong, TObject) == None
    ensures Cell(before, TObject, TInteger) == None && Cell(before, TBigDecimal, TString) == None
    ensures Cell(before, TObject, TObject) == Some(Registered("anyToAny"))
    ensures Cell(after, TBigDecimal, TString) == None && Cell(after, TLong, TObject) == None
    ensures Cell(after, TObject, TInteger) == None
    ensures Cell(after, TObject, TString) == Some(Registered("anyToText"))
  {
    assert Find(before, TLong) == Some(0) && Find(before, TObject) == Some(1) && Find(before, TBigDecimal) == None;
    assert Find(after, TLong) == Some(0) && Find(after, TObject) == Some(1) && Find(after, TBigDecimal) == None;
  }

  lemma RememberedIsAfter()
    ensures Register(before, TLong, TString, Registered("anyToAny")) == after
  {
    assert Find(before, TLong) == Some(0);
    assert Put(longRow, TString, Registered("anyToAny")) == longRowAfter;
  }

  /** No converter registered for the `Integer` column takes a `String` target. */
  lemma StringNotInteger()
    ensures !Assignable(TString, TInteger)
  {}

  /** The column search passes over an incompatible column. */
  lemma SkipColumn(reg: Registry, row: JType, c: JType, rest: seq<JType>, source: JType, target: JType)
    requires !Compatible(reg, row, c, source, target)
    ensures SearchColumns(reg, row, [c] + rest, source, target) == SearchColumns(reg, row, rest, source, target)
  {
    assert ([c] + rest)[1..] == rest;
  }

  /** The column search stops at a compatible column. */
  lemma TakeColumn(reg: Registry, row: JType, c: JType, rest: seq<JType>, source: JType, target: JType)
    requires Compatible(reg, row, c, source, target)
    ensures SearchColumns(reg, row, [c] + rest, source, target) == Cell(reg, row, c)
  {}

  /** The row search passes over a row with no compatible column. */
  lemma SkipRow(reg: Registry, row: JType, rows: seq<JType>, cols: seq<JType>, source: JType, target: JType)
    requires SearchColumns(reg, row, cols, source, target).None?
    ensures SearchRows(reg, [row] + rows, cols, source, target) == SearchRows(reg, rows, cols, source, target)
  {
    assert ([row] + rows)[1..] == rows;
  }

  /** The row search stops at a row with a compatible column. */
  lemma TakeRow(reg: Registry, row: JType, rows: seq<JType>, cols: seq<JType>, source: JType, target: JType)
    requires SearchColumns(reg, row, cols, source, target).Some?
    ensures SearchRows(reg, [row] + rows, cols, source, target) == SearchColumns(reg, row, cols, source, target)
  {}

  /** A row search over three columns none of which is compatible finds nothing. */
  lemma ThreeColumnsSilent(reg: Registry, row: JType, c0: JType, c1: JType, c2: JType, source: JType, target: JType)
    requires !Compatible(reg, row, c0, source, target)
    requires !Compatible(reg, row, c1, source, target)
    requires !Compatible(reg, row, c2, source, target)
    ensures SearchColumns(reg, row, [c0, c1, c2], source, target) == None
  {
    SkipColumn(reg, row, c2, [], source, target);
    assert [c2] + [] == [c2];
    SkipColumn(reg, row, c1, [c2], source, target);
    assert [c1] + [c2] == [c1, c2];
    SkipColumn(reg, row, c0, [c1, c2], source, target);
    assert [c0] + [c1, c2] == [c0, c1, c2];
  }

  /** A row search over three columns whose second is the first compatible
      one answers with that cell. */
  lemma SecondColumnAnswers(reg: Registry, row: JType, c0: JType, c1: JType, c2: JType, source: JType, target: JType)
    requires !Compatible(reg, row, c0, source, target)
    requires Compatible(reg, row, c1, source, target)
    ensures SearchColumns(reg, row, [c0, c1, c2], source, target) == Cell(reg, row, c1)
  {
    TakeColumn(reg, row, c1, [c2], source, target);
    assert [c1] + [c2] == [c1, c2];
    SkipColumn(reg, row, c0, [c1, c2], source, target);
    assert [c0] + [c1, c2] == [c0, c1, c2];
  }

  /** Before the memo, nothing in the `Long` row converts to `String`. */
  lemma LongRowSilentBefore(reg: Registry, source: JType)
    requires Cell(reg, TLong, TObject) == None && Cell(reg, TLong, TString) == None
    ensures SearchColumns(reg, TLong, [TInteger, TObject, TString], source, TString) == None
  {
    StringNotInteger();
    ThreeColumnsSilent(reg, TLong, TInteger, TObject, TString, source, TString);
  }

  /** After it, the remembered `Long -> String` cell still ignores a `BigDecimal`. */
  lemma LongRowSilentAfter(reg: Registry)
    requires Cell(reg, TLong, TObject) == None
    ensures SearchColumns(reg, TLong, [TInteger, TString, TObject], TBigDecimal, TString) == None
  {
    StringNotInteger();
    assert !Assignable(TBigDecimal, TLong);
    ThreeColumnsSilent(reg, TLong, TInteger, TString, TObject, TBigDecimal, TString);
  }

  /** Before the memo, `Object -> Object` is the first answer in the `Object` row. */
  lemma ObjectRowBefore(reg: Registry, source: JType)
    requires Assignable(source, TObject)
    requires Cell(reg, TObject, TObject) == Some(Registered("anyToAny"))
    ensures SearchColumns(reg, TObject, [TInteger, TObject, TString], source, TString) == Some(Registered("anyToAny"))
  {
    StringNotInteger();
    assert Assignable(TString, TObject);
    SecondColumnAnswers(reg, TObject, TInteger, TObject, TString, source, TString);
  }

  /** After it, `Object -> String` comes first in the same row. */
  lemma ObjectRowAfter(reg: Registry)
    requires Cell(reg, TObject, TString) == Some(Registered("anyToText"))
    ensures SearchColumns(reg, TObject, [TInteger, TString, TObject], TBigDecimal, TString) == Some(Registered("anyToText"))
  {
    StringNotInteger();
    assert Assignable(TBigDecimal, TObject) && Assignable(TString, TString);
    SecondColumnAnswers(reg, TObject, TInteger, TString, TObject, TBigDecimal, TString);
  }

  /** In a registry of two rows, a search that finds nothing in the first
      row answers with the second row's first compatible column. */
  lemma SecondRowAnswers(reg: Registry, first: JType, second: JType, source: JType, target: JType)
    requires Keys(reg) == [first, second]
    requires SearchColumns(reg, first, ColumnKeys(reg), source, target).None?
    requires SearchColumns(reg, second, ColumnKeys(reg), source, target).Some?
    ensures FindCompatible(reg, source, target) == SearchColumns(reg, second, ColumnKeys(reg), source, target)
  {
    var cols := ColumnKeys(reg);
    assert [first] + [second] == [first, second];
    SkipRow(reg, first, [second], cols, source, target);
    assert [second] + [] == [second];
    TakeRow(reg, second, [], cols, source, target);
  }

  /** A `Long` is an `Object` and so is a `String`: the `Object -> Object`
      cell, met before `Object -> String`, answers `Long -> String`; a
      `BigDecimal` finds the same cell. */
  lemma FoundBefore(reg: Registry, source: JType)
    requires Keys(reg) == [TLong, TObject] && ColumnKeys(reg) == [TInteger, TObject, TString]
    requires Cell(reg, TLong, TObject) == None && Cell(reg, TLong, TString) == None
    requires Cell(reg, TObject, TObject) == Some(Registered("anyToAny"))
    requires Assignable(source, TObject)
    ensures FindCompatible(reg, source, TString) == Some(Registered("anyToAny"))
  {
    LongRowSilentBefore(reg, source);
    ObjectRowBefore(reg, source);
    SecondRowAnswers(reg, TLong, TObject, source, TString);
  }

  /** Once `String` precedes `Object` among the columns, the `Object -> String`
      cell is met first. */
  lemma FoundAfter(reg: Registry)
    requires Keys(reg) == [TLong, TObject] && ColumnKeys(reg) == [TInteger, TString, TObject]
    requires Cell(reg, TLong, TObject) == None
    requires Cell(reg, TObject, TString) == Some(Registered("anyToText"))
    ensures FindCompatible(reg, TBigDecimal, TString) == Some(Registered("anyToText"))
  {
    LongRowSilentAfter(reg);
    ObjectRowAfter(reg);
    SecondRowAnswers(reg, TLong, TObject, TBigDecimal, TString);
  }

  /** The answer to `Long -> String` is remembered under that pair. */
  lemma LongToText()
    ensures GetConverter(before, TLong, TString) == (Some(Registered("anyToAny")), after)
  {
    ColumnsBefore(); RowKeys(); CellsOfExamples(); RememberedIsAfter();
    assert Assignable(TLong, TObject);
    FoundBefore(before, TLong);
  }

  lemma DecimalToTextBefore()
    ensures GetConverter(before, TBigDecimal, TString).0 == Some(Registered("anyToAny"))
  {
    ColumnsBefore(); RowKeys(); CellsOfExamples();
    assert Assignable(TBigDecimal, TObject);
    FoundBefore(before, TBigDecimal);
  }

  lemma DecimalToTextAfter()
    ensures GetConverter(after, TBigDecimal, TString).0 == Some(Registered("anyToText"))
  {
    ColumnsAfter(); RowKeys(); CellsOfExamples();
    FoundAfter(after);
  }

  /** Asking for `Long -> String` first changes the answer to
      `BigDecimal -> String`: the memo only keeps a repeated query stable. */
  lemma MemoChangesLaterAnswer()
    ensures GetConverter(before, TBigDecimal, TString).0 == Some(Registered("anyToAny"))
    ensures GetConverter(GetConverter(before, TLong, TString).1, TBigDecimal, TString).0 == Some(Registered("anyToText"))
  {
    LongToText(); DecimalToTextBefore(); DecimalToTextAfter();
  }
}
