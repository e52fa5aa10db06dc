/** The converter registry: a table from (source class, target class) to a
    conversion function, filled with the built-in conversions, extended by
    `register`, and searched by `getConverter`, which falls back to any
    registered conversion whose source and target classes are superclasses
    of the requested ones, remembering what it found. */
module Converters {
  import opened Wrappers
  import opened JavaStrings
  import opened JavaNumbers
  import opened JavaTypes
  import opened OrderedMaps
  import opened Enums

  /** The conversion functions `Converters` defines. `Identity` and
      `ToStringFallback` are the lambdas `getConverter` returns for equal
      classes and for a `String` target; `Discard` is the row mapper's
      converter for a column no property takes; `Joda` names a date/time
      conversion and `Registered` a function some caller registered, both
      applied outside the model. */
  datatype Converter =
    | Identity
    | ToStringFallback
    | Discard
    | LongToInteger
    | IntegerToLong
    | EnumToString
    | StringToInteger
    | IntegerToString
    | StringToLong
    | LongToString
    | BigDecimalToLong
    | CharacterToString
    | StringToCharacter
    | StringToEnum(enumName: string)
    | ObjectToStringToEnum(enumName: string)
    | LongIdToEnum(enumName: string)
    | IntegerIdToEnum(enumName: string)
    | Wrapper(left: string, right: string)
    | Joda(name: string)
    | Registered(name: string)

  /** The one-argument `Wrapper` constructor. */
  function WrapBoth(s: string): (c: Converter)
    ensures c.Wrapper? && c.left == s && c.right == s
  {
    Wrapper(s, s)
  }

  /** Guava's `HashBasedTable`: rows in the order they were first used,
      each row's columns in the order they were first put. */
  type Registry = OMap<JType, OMap<JType, Converter>>

  /** `table.get(row, column)`. */
  function Cell(reg: Registry, row: JType, col: JType): Option<Converter> {
    match Get(reg, row)
    case None => None
    case Some(cols) => Get(cols, col)
  }

  /** `table.put(row, column, converter)`, which is also `register`. */
  function Register(reg: Registry, row: JType, col: JType, conv: Converter): (r: Registry)
    ensures UniqueKeys(reg) ==> UniqueKeys(r)
  {
    PutKeys(reg, row, Put(Get(reg, row).GetOr([]), col, conv));
    Put(reg, row, Put(Get(reg, row).GetOr([]), col, conv))
  }

  /** A put is seen at its own cell and nowhere else. */
  lemma RegisterCell(reg: Registry, row: JType, col: JType, conv: Converter, row': JType, col': JType)
    ensures Cell(Register(reg, row, col, conv), row', col') ==
      if row' == row && col' == col then Some(conv) else Cell(reg, row', col')
  {
    var cols := Put(Get(reg, row).GetOr([]), col, conv);
    PutGet(reg, row, cols, row');
    PutGet(Get(reg, row).GetOr([]), col, conv, col');
  }

  /** The table the static initializer's 22 puts leave behind. */
  const BUILT_IN: Registry := [
    (TLong, [(TInteger, LongToInteger), (TString, LongToString)]),
    (TInteger, [(TLong, IntegerToLong), (TString, IntegerToString)]),
    (TEnumBase, [(TString, EnumToString)]),
    (TString, [(TInteger, StringToInteger), (TLong, StringToLong), (TLocalDate, Joda("StringToLocalDate")),
               (TDateTime, Joda("StringToDateTime")), (TCharacter, StringToCharacter)]),
    (TReadableInstant, [(TString, Joda("InstantToString"))]),
    (TReadablePartial, [(TString, Joda("PartialToString"))]),
    (TSqlDate, [(TLocalDate, Joda("DateToLocalDate")), (TDateTime, Joda("DateToDateTime"))]),
    (TTimestamp, [(TDateTime, Joda("TimestampToDateTime"))]),
    (TDateTime, [(TTimestamp, Joda("DateTimeToTimestamp")), (TLocalDate, Joda("DateTimeToLocalDate"))]),
    (TLocalDate, [(TSqlDate, Joda("LocalDateToDate")), (TDateTime, Joda("LocalDateToDateTime"))]),
    (TBigDecimal, [(TDateTime, Joda("BigDecimalToDateTime")), (TLong, BigDecimalToLong)]),
    (TCharacter, [(TString, CharacterToString)])
  ]

  /** The cell at row position `i` and column position `j`, when neither
      key occurs earlier. */
  lemma CellAt(reg: Registry, i: nat, j: nat)
    requires i < |reg| && j < |reg[i].1|
    requires forall k :: 0 <= k < i ==> reg[k].0 != reg[i].0
    requires forall k :: 0 <= k < j ==> reg[i].1[k].0 != reg[i].1[j].0
    ensures Cell(reg, reg[i].0, reg[i].1[j].0) == Some(reg[i].1[j].1)
  {
    FindIs(reg, reg[i].0, i);
    FindIs(reg[i].1, reg[i].1[j].0, j);
  }

  /** A row key that never occurs has no cells. */
  lemma NoRow(reg: Registry, row: JType, col: JType)
    requires forall k :: 0 <= k < |reg| ==> reg[k].0 != row
    ensures Cell(reg, row, col).None?
  {
  }

  /** A column key that never occurs in the row at position `i` has no
      cell there. */
  lemma NoColumn(reg: Registry, i: nat, col: JType)
    requires i < |reg|
    requires forall k :: 0 <= k < i ==> reg[k].0 != reg[i].0
    requires forall k :: 0 <= k < |reg[i].1| ==> reg[i].1[k].0 != col
    ensures Cell(reg, reg[i].0, col).None?
  {
    FindIs(reg, reg[i].0, i);
  }

  /** Columns not yet in `acc`, appended in the order met. */
  function AppendNew(acc: seq<JType>, cs: seq<JType>): (r: seq<JType>)
    ensures forall c :: c in r <==> c in acc || c in cs
    decreases |cs|
  {
    if |cs| == 0 then acc else AppendNew(if cs[0] in acc then acc else acc + [cs[0]], cs[1..])
  }

  function ColumnsFrom(rows: Registry, acc: seq<JType>): (r: seq<JType>)
    ensures forall c :: c in acc ==> c in r
    ensures forall i, c :: 0 <= i < |rows| && c in Keys(rows[i].1) ==> c in r
    decreases |rows|
  {
    if |rows| == 0 then acc
    else
      var r := ColumnsFrom(rows[1..], AppendNew(acc, Keys(rows[0].1)));
      assert forall i :: 1 <= i < |rows| ==> rows[i] == rows[1..][i - 1];
      r
  }

  /** `columnKeySet()`: every column, in the order rows then columns first
      show it. */
  function ColumnKeys(reg: Registry): seq<JType> {
    ColumnsFrom(reg, [])
  }

  /** A registered conversion usable for `source -> target`: its row class
      is assignable from the source class and its column class from the target. */
  predicate Compatible(reg: Registry, row: JType, col: JType, source: JType, target: JType) {
    Cell(reg, row, col).Some? && Assignable(source, row) && Assignable(target, col)
  }

  /** Position `j` holds the first column of `cols` compatible in `row`. */
  predicate FirstColumnAt(reg: Registry, row: JType, cols: seq<JType>, source: JType, target: JType, j: int) {
    && 0 <= j < |cols| && Compatible(reg, row, cols[j], source, target)
    && forall j' :: 0 <= j' < j ==> !Compatible(reg, row, cols[j'], source, target)
  }

  /** Positions `i`, `j` hold the first compatible cell in row-major order:
      no compatible cell in an earlier row, none earlier in this one. */
  predicate FirstCellAt(reg: Registry, rows: seq<JType>, cols: seq<JType>, source: JType, target: JType, i: int, j: int) {
    && 0 <= i < |rows| && FirstColumnAt(reg, rows[i], cols, source, target, j)
    && forall i', j' :: 0 <= i' < i && 0 <= j' < |cols| ==> !Compatible(reg, rows[i'], cols[j'], source, target)
  }

  /** `c` is the converter in the first compatible cell of the registry,
      rows in `rowKeySet` order and, within a row, columns in `columnKeySet` order. */
  ghost predicate FirstCompatible(reg: Registry, source: JType, target: JType, c: Option<Converter>) {
    exists i, j :: 0 <= i < |Keys(reg)| && 0 <= j < |ColumnKeys(reg)| && FirstCellAt(reg, Keys(reg), ColumnKeys(reg), source, target, i, j) && c == Cell(reg, Keys(reg)[i], ColumnKeys(reg)[j])
  }

  /** The inner loop over the columns of one row. */
  function SearchColumns(reg: Registry, row: JType, cols: seq<JType>, source: JType, target: JType): (r: Option<Converter>)
    ensures r.Some? ==> exists col :: col in cols && Compatible(reg, row, col, source, target) && Cell(reg, row, col) == r
    ensures r.None? ==> forall col :: col in cols ==> !Compatible(reg, row, col, source, target)
    decreases |cols|
  {
    if |cols| == 0 then None
    else if Compatible(reg, row, cols[0], source, target) then Cell(reg, row, cols[0])
    else SearchColumns(reg, row, cols[1..], source, target)
  }

  /** Passing over an incompatible head column shifts the first position by one. */
  lemma ShiftFirstColumn(reg: Registry, row: JType, cols: seq<JType>, source: JType, target: JType, j: int)
    requires |cols| > 0 && !Compatible(reg, row, cols[0], source, target)
    requires FirstColumnAt(reg, row, cols[1..], source, target, j)
    ensures FirstColumnAt(reg, row, cols, source, target, j + 1) && cols[j + 1] == cols[1..][j]
  {
    forall j' | 0 <= j' < j + 1
      ensures !Compatible(reg, row, cols[j'], source, target)
    {
      if j' > 0 {
        assert cols[j'] == cols[1..][j' - 1];
      }
    }
  }

  /** The converter found in a row sits at its first compatible column. */
  ghost predicate FoundAtFirstColumn(reg: Registry, row: JType, cols: seq<JType>, source: JType, target: JType) {
    SearchColumns(reg, row, cols, source, target).Some? ==>
      exists j :: 0 <= j < |cols| && FirstColumnAt(reg, row, cols, source, target, j) && SearchColumns(reg, row, cols, source, target) == Cell(reg, row, cols[j])
  }

  /** The inductive step of `SearchColumnsFirst`: an incompatible head column is passed over. */
  lemma SearchColumnsStep(reg: Registry, row: JType, cols: seq<JType>, source: JType, target: JType)
    requires |cols| > 0 && !Compatible(reg, row, cols[0], source, target)
    requires FoundAtFirstColumn(reg, row, cols[1..], source, target)
    ensures FoundAtFirstColumn(reg, row, cols, source, target)
  {
    var rest := SearchColumns(reg, row, cols[1..], source, target);
    assert SearchColumns(reg, row, cols, source, target) == rest;
    if rest.Some? {
      var j :| 0 <= j < |cols| - 1 && FirstColumnAt(reg, row, cols[1..], source, target, j) && rest == Cell(reg, row, cols[1..][j]);
      ShiftFirstColumn(reg, row, cols, source, target, j);
    }
  }

  lemma {:induction false} SearchColumnsFirst(reg: Registry, row: JType, cols: seq<JType>, source: JType, target: JType)
    ensures FoundAtFirstColumn(reg, row, cols, source, target)
    decreases |cols|
  {
    if |cols| > 0 {
      if Compatible(reg, row, cols[0], source, target) {
        assert FirstColumnAt(reg, row, cols, source, target, 0);
      } else {
        SearchColumnsFirst(reg, row, cols[1..], source, target);
        SearchColumnsStep(reg, row, cols, source, target);
      }
    }
  }

  /** The outer loop over the rows. */
  function SearchRows(reg: Registry, rows: seq<JType>, cols: seq<JType>, source: JType, target: JType): (r: Option<Converter>)
    ensures r.Some? ==> exists row, col :: Compatible(reg, row, col, source, target) && Cell(reg, row, col) == r
    ensures r.None? ==> forall row, col :: row in rows && col in cols ==> !Compatible(reg, row, col, source, target)
    decreases |rows|
  {
    if |rows| == 0 then None
    else match SearchColumns(reg, rows[0], cols, source, target)
      case Some(c) => Some(c)
      case None => SearchRows(reg, rows[1..], cols, source, target)
  }

  /** Passing over a row with no compatible column shifts the first row by one. */
  lemma ShiftFirstCell(reg: Registry, rows: seq<JType>, cols: seq<JType>, source: JType, target: JType, i: int, j: int)
    requires |rows| > 0 && SearchColumns(reg, rows[0], cols, source, target).None?
    requires FirstCellAt(reg, rows[1..], cols, source, target, i, j)
    ensures FirstCellAt(reg, rows, cols, source, target, i + 1, j) && rows[i + 1] == rows[1..][i]
  {
    forall i', j' | 0 <= i' < i + 1 && 0 <= j' < |cols|
      ensures !Compatible(reg, rows[i'], cols[j'], source, target)
    {
      assert cols[j'] in cols;
      if i' > 0 {
        assert rows[i'] == rows[1..][i' - 1];
      }
    }
  }

  /** The converter found sits at the first compatible cell in row-major order. */
  ghost predicate FoundAtFirstCell(reg: Registry, rows: seq<JType>, cols: seq<JType>, source: JType, target: JType) {
    SearchRows(reg, rows, cols, source, target).Some? ==>
      exists i, j :: 0 <= i < |rows| && 0 <= j < |cols| && FirstCellAt(reg, rows, cols, source, target, i, j) && SearchRows(reg, rows, cols, source, target) == Cell(reg, rows[i], cols[j])
  }

  /** The inductive step of `SearchRowsFirst`: a row with no compatible column is passed over. */
  lemma SearchRowsStep(reg: Registry, rows: seq<JType>, cols: seq<JType>, source: JType, target: JType)
    requires |rows| > 0 && SearchColumns(reg, rows[0], cols, source, target).None?
    requires FoundAtFirstCell(reg, rows[1..], cols, source, target)
    ensures FoundAtFirstCell(reg, rows, cols, source, target)
  {
    var rest := SearchRows(reg, rows[1..], cols, source, target);
    assert SearchRows(reg, rows, cols, source, target) == rest;
    if rest.Some? {
      var i, j :| 0 <= i < |rows| - 1 && 0 <= j < |cols| && FirstCellAt(reg, rows[1..], cols, source, target, i, j) && rest == Cell(reg, rows[1..][i], cols[j]);
      ShiftFirstCell(reg, rows, cols, source, target, i, j);
    }
  }

  /** The row search stops at its first row with a compatible column. */
  lemma SearchRowsHead(reg: Registry, rows: seq<JType>, cols: seq<JType>, source: JType, target: JType)
    requires |rows| > 0 && SearchColumns(reg, rows[0], cols, source, target).Some?
    ensures FoundAtFirstCell(reg, rows, cols, source, target)
  {
    var inRow := SearchColumns(reg, rows[0], cols, source, target);
    assert SearchRows(reg, rows, cols, source, target) == inRow;
    SearchColumnsFirst(reg, rows[0], cols, source, target);
    var j :| 0 <= j < |cols| && FirstColumnAt(reg, rows[0], cols, source, target, j) && inRow == Cell(reg, rows[0], cols[j]);
    assert FirstCellAt(reg, rows, cols, source, target, 0, j);
  }

  lemma {:induction false} SearchRowsFirst(reg: Registry, rows: seq<JType>, cols: seq<JType>, source: JType, target: JType)
    ensures FoundAtFirstCell(reg, rows, cols, source, target)
    decreases |rows|
  {
    if |rows| > 0 {
      if SearchColumns(reg, rows[0], cols, source, target).Some? {
        SearchRowsHead(reg, rows, cols, source, target);
      } else {
        SearchRowsFirst(reg, rows[1..], cols, source, target);
        SearchRowsStep(reg, rows, cols, source, target);
      }
    }
  }

  /** Every filled cell lies on a listed row and a listed column. */
  lemma CellListed(reg: Registry, row: JType, col: JType)
    requires Cell(reg, row, col).Some?
    ensures row in Keys(reg) && col in ColumnKeys(reg)
  {
    var cols := Get(reg, row).value;
    var i :| 0 <= i < |reg| && reg[i] == (row, cols);
    assert Keys(reg)[i] == row;
    HasKeyIff(cols, col);
  }

  /** The nested loop over `rowKeySet()` and `columnKeySet()`: the first
      compatible conversion, rows first. */
  function FindCompatible(reg: Registry, source: JType, target: JType): (r: Option<Converter>)
    ensures r.Some? ==> exists row, col :: Compatible(reg, row, col, source, target) && Cell(reg, row, col) == r
    ensures r.None? <==> forall row, col :: !Compatible(reg, row, col, source, target)
  {
    var r := SearchRows(reg, Keys(reg), ColumnKeys(reg), source, target);
    assert r.None? ==> forall row, col :: !Compatible(reg, row, col, source, target) by {
      if r.None? {
        forall row, col ensures !Compatible(reg, row, col, source, target) {
          if Cell(reg, row, col).Some? {
            CellListed(reg, row, col);
          }
        }
      }
    }
    r
  }

  /** `getConverter`'s search answers with the first compatible cell,
      rows in `rowKeySet` order and columns in `columnKeySet` order. */
  lemma FindCompatibleFirst(reg: Registry, source: JType, target: JType)
    ensures FindCompatible(reg, source, target).Some? ==> FirstCompatible(reg, source, target, FindCompatible(reg, source, target))
  {
    SearchRowsFirst(reg, Keys(reg), ColumnKeys(reg), source, target);
  }


  /** `getConverter(source, target)`, returning the converter (or `None` for
      null) and the registry as the call leaves it. */
  function GetConverter(reg: Registry, source: JType, target: JType): (r: (Option<Converter>, Registry))
    ensures source == target ==> r == (Some(Identity), reg)
    ensures source != target && Cell(reg, source, target).Some? ==> r == (Cell(reg, source, target), reg)
    ensures r.0.None? <==> source != target && target != TString && forall row, col :: !Compatible(reg, row, col, source, target)
    ensures r.0.Some? ==>
      || (source == target && r.0 == Some(Identity))
      || (exists row, col :: Compatible(reg, row, col, source, target) && Cell(reg, row, col) == r.0)
      || (target == TString && r.0 == Some(ToStringFallback))
    ensures source != target && Cell(reg, source, target).None? && FindCompatible(reg, source, target).Some? ==>
      FirstCompatible(reg, source, target, r.0)
    ensures source != target && (exists row, col :: Compatible(reg, row, col, source, target)) ==> Cell(r.1, source, target) == r.0
    ensures forall row, col :: !(row == source && col == target) ==> Cell(r.1, row, col) == Cell(reg, row, col)
    ensures r.1 == reg || (r.0.Some? && r.1 == Register(reg, source, target, r.0.value))
  {
    if source == target then (Some(Identity), reg)
    else match Cell(reg, source, target)
      case Some(c) =>
        assert Compatible(reg, source, target, source, target);
        (Some(c), reg)
      case None =>
        match FindCompatible(reg, source, target)
        case Some(c) =>
          forall row, col | !(row == source && col == target)
            ensures Cell(Register(reg, source, target, c), row, col) == Cell(reg, row, col)
          {
            RegisterCell(reg, source, target, c, row, col);
          }
          RegisterCell(reg, source, target, c, source, target);
          FindCompatibleFirst(reg, source, target);
          (Some(c), Register(reg, source, target, c))
        case None =>
          if target == TString then (Some(ToStringFallback), reg) else (None, reg)
  }

  /** Asking again gives the same converter and changes nothing more: a
      conversion found by the search is remembered under the exact pair. */
  lemma GetConverterMemo(reg: Registry, source: JType, target: JType)
    ensures GetConverter(GetConverter(reg, source, target).1, source, target) == GetConverter(reg, source, target)
  {
    var first := GetConverter(reg, source, target);
    if first.1 != reg {
      RegisterCell(reg, source, target, first.0.value, source, target);
    }
  }

  /** The ids and enum constants converters consult. */
  datatype Env = Env(enums: EnumEnv, longIds: IdTable, intIds: IdTable)

  /** `Enum.valueOf` with the text, then with the text upper-cased. */
  function EnumByName(env: Env, enumName: string, s: string): (r: Result<Value>)
    ensures r.Ok? <==> HasConstant(env.enums, enumName, s) || HasConstant(env.enums, enumName, ToUpper(s))
    ensures HasConstant(env.enums, enumName, s) ==> r == Ok(VEnum(enumName, s))
    ensures !HasConstant(env.enums, enumName, s) && HasConstant(env.enums, enumName, ToUpper(s)) ==>
      r == Ok(VEnum(enumName, ToUpper(s)))
    ensures r.Err? ==> r.error.IllegalArgument?
    ensures r.Ok? ==> r.value.VEnum? && r.value.enumName == enumName
  {
    match ValueOf(env.enums, enumName, s)
    case Ok(v) => Ok(v)
    case Err(_) =>
      match ValueOf(env.enums, enumName, ToUpper(s))
      case Ok(v) => Ok(v)
      case Err(_) => Err(IllegalArgument(enumName + " has no member named <" + s + ">"))
  }

  function Pow10(n: nat): (r: nat)
    ensures r > 0
  {
    if n == 0 then 1 else 10 * Pow10(n - 1)
  }

  /** The integer part of `unscaled * 10^-scale`, truncated toward zero. */
  function DecimalIntegerPart(unscaled: int, scale: int): (r: int)
    ensures scale <= 0 ==> r == unscaled * Pow10(-scale)
    ensures 0 <= unscaled ==> 0 <= r
    ensures unscaled <= 0 ==> r <= 0
  {
    if scale <= 0 then unscaled * Pow10(-scale)
    else if unscaled >= 0 then unscaled / Pow10(scale)
    else -((-unscaled) / Pow10(scale))
  }

  /** `LongToInteger`: `intValue()`, which keeps the low 32 bits. */
  function NarrowLong(v: Value): (r: Result<Value>)
    ensures v.VLong? ==> r == Ok(VInt(WrapInt32(v.l)))
    ensures r.Ok? ==> r.value.VInt?
  {
    if v.VNull? then Err(NullPointer) else if v.VLong? then Ok(VInt(WrapInt32(v.l))) else Err(ClassCast)
  }

  /** `IntegerToLong`. */
  function WidenInt(v: Value): (r: Result<Value>)
    ensures v.VInt? ==> r == Ok(VLong(v.i))
    ensures r.Ok? ==> r.value.VLong?
  {
    if v.VNull? then Err(NullPointer) else if v.VInt? then Ok(VLong(v.i)) else Err(ClassCast)
  }

  /** `StringToInteger`: `Integer.parseInt`, which refuses null with
      NumberFormatException. */
  function ParseIntValue(v: Value): (r: Result<Value>)
    ensures v.VString? && ParseInt(v.s).Ok? ==> r == Ok(VInt(ParseInt(v.s).value))
    ensures v.VString? && ParseInt(v.s).Err? ==> r.Err?
    ensures r.Ok? ==> r.value.VInt?
  {
    if v.VNull? then Err(NumberFormat("null"))
    else if v.VString? then var i :- ParseInt(v.s); Ok(VInt(i))
    else Err(ClassCast)
  }

  /** `StringToLong`: null and blank text give null; anything else goes to
      `Long.parseLong` untrimmed. */
  function ParseLongValue(v: Value): (r: Result<Value>)
    ensures v.VNull? ==> r == Ok(VNull)
    ensures v.VString? && IsBlank(v.s) ==> r == Ok(VNull)
    ensures v.VString? && !IsBlank(v.s) && ParseLong(v.s).Ok? ==> r == Ok(VLong(ParseLong(v.s).value))
    ensures v.VString? && !IsBlank(v.s) && ParseLong(v.s).Err? ==> r.Err?
    ensures r.Ok? ==> r.value.VNull? || r.value.VLong?
  {
    if v.VNull? then Ok(VNull)
    else if v.VString? then
      if IsBlank(v.s) then Ok(VNull) else var l :- ParseLong(v.s); Ok(VLong(l))
    else Err(ClassCast)
  }

  /** `IntegerToString` and `LongToString`. */
  function NumberText(v: Value): (r: Result<Value>)
    ensures v.VInt? ==> r == Ok(VString(IntToString(v.i)))
    ensures v.VLong? ==> r == Ok(VString(IntToString(v.l)))
    ensures r.Ok? ==> r.value.VString?
  {
    if v.VNull? then Err(NullPointer)
    else if v.VInt? then Ok(VString(IntToString(v.i)))
    else if v.VLong? then Ok(VString(IntToString(v.l)))
    else Err(ClassCast)
  }

  /** `BigDecimalToLong`: null stays null, else `longValue()`. */
  function DecimalToLong(v: Value): (r: Result<Value>)
    ensures v.VNull? ==> r == Ok(VNull)
    ensures v.VDecimal? ==> r == Ok(VLong(WrapInt64(DecimalIntegerPart(v.unscaled, v.scale))))
    ensures r.Ok? ==> r.value.VNull? || r.value.VLong?
  {
    if v.VNull? then Ok(VNull)
    else if v.VDecimal? then Ok(VLong(WrapInt64(DecimalIntegerPart(v.unscaled, v.scale))))
    else Err(ClassCast)
  }

  /** `CharacterToString`: null stays null. */
  function CharText(v: Value): (r: Result<Value>)
    ensures v.VNull? ==> r == Ok(VNull)
    ensures v.VChar? ==> r == Ok(VString([v.c]))
    ensures r.Ok? ==> r.value.VNull? || r.value.VString?
  {
    if v.VNull? then Ok(VNull) else if v.VChar? then Ok(VString([v.c])) else Err(ClassCast)
  }

  /** `StringToCharacter`: null stays null, otherwise the first char (a
      warning is logged when more follow), and `charAt(0)` of the empty
      string throws. */
  function FirstChar(v: Value): (r: Result<Value>)
    ensures v.VNull? ==> r == Ok(VNull)
    ensures v.VString? && |v.s| == 0 ==> r == Err(IndexOutOfBounds)
    ensures v.VString? && |v.s| > 0 ==> r == Ok(VChar(v.s[0]))
    ensures r.Ok? ==> r.value.VNull? || r.value.VChar?
  {
    if v.VNull? then Ok(VNull)
    else if v.VString? then (if |v.s| == 0 then Err(IndexOutOfBounds) else Ok(VChar(v.s[0])))
    else Err(ClassCast)
  }

  /** `LongIdToEnum` and `IntegerIdToEnum`: the constant the id table holds,
      else IllegalArgumentException. */
  function EnumById(table: IdTable, e: string, id: Option<int>): (r: Result<Value>)
    ensures r.Ok? <==> LookupId(table, e, id).Some?
    ensures r.Ok? ==> r.value == LookupId(table, e, id).value
  {
    match LookupId(table, e, id)
    case Some(c) => Ok(c)
    case None => Err(IllegalArgument(e + " has no member with that id"))
  }

  /** The class every non-null result of a built-in converter belongs to:
      the class named on the right of its `X -> Y` registration. `None` for
      the identity, for `Discard` and for the conversions outside the model. */
  function ResultClass(conv: Converter): Option<JType> {
    match conv
    case LongToInteger => Some(TInteger)
    case StringToInteger => Some(TInteger)
    case IntegerToLong => Some(TLong)
    case StringToLong => Some(TLong)
    case BigDecimalToLong => Some(TLong)
    case ToStringFallback => Some(TString)
    case EnumToString => Some(TString)
    case IntegerToString => Some(TString)
    case LongToString => Some(TString)
    case CharacterToString => Some(TString)
    case Wrapper(_, _) => Some(TString)
    case StringToCharacter => Some(TCharacter)
    case StringToEnum(e) => Some(TEnum(e))
    case ObjectToStringToEnum(e) => Some(TEnum(e))
    case LongIdToEnum(e) => Some(TEnum(e))
    case IntegerIdToEnum(e) => Some(TEnum(e))
    case _ => None
  }

  /** `converter.apply(v)`; `external` applies the date/time and registered
      conversions. A value of the wrong class is a ClassCastException. */
  function Apply(env: Env, external: (string, Value) -> Result<Value>, conv: Converter, v: Value): (r: Result<Value>)
  {
    match conv
    case Identity => Ok(v)
    case ToStringFallback => var s :- ToString(v); Ok(VString(s))
    case Discard => Ok(VNull)
    case LongToInteger => NarrowLong(v)
    case IntegerToLong => WidenInt(v)
    case EnumToString =>
      if v.VNull? then Err(NullPointer) else if v.VEnum? then Ok(VString(v.constant)) else Err(ClassCast)
    case StringToInteger => ParseIntValue(v)
    case IntegerToString => if v.VLong? then Err(ClassCast) else NumberText(v)
    case StringToLong => ParseLongValue(v)
    case LongToString => if v.VInt? then Err(ClassCast) else NumberText(v)
    case BigDecimalToLong => DecimalToLong(v)
    case CharacterToString => CharText(v)
    case StringToCharacter => FirstChar(v)
    case StringToEnum(e) =>
      if v.VNull? then Err(NullPointer) else if v.VString? then EnumByName(env, e, v.s) else Err(ClassCast)
    case ObjectToStringToEnum(e) =>
      var s :- ToString(v); EnumByName(env, e, s)
    case LongIdToEnum(e) =>
      if v.VNull? then EnumById(env.longIds, e, None)
      else if v.VLong? then EnumById(env.longIds, e, Some(v.l))
      else Err(ClassCast)
    case IntegerIdToEnum(e) =>
      if v.VNull? then EnumById(env.intIds, e, None)
      else if v.VInt? then EnumById(env.intIds, e, Some(v.i))
      else Err(ClassCast)
    case Wrapper(left, right) => var s :- ToString(v); Ok(VString(left + s + right))
    case Joda(name) => external(name, v)
    case Registered(name) => external(name, v)
  }

  /** Every built-in converter yields null, an exception, or a value of the
      class it is registered to produce. */
  lemma ApplyResultClass(env: Env, external: (string, Value) -> Result<Value>, conv: Converter, v: Value)
    requires ResultClass(conv).Some?
    ensures var r := Apply(env, external, conv, v);
      r.Ok? && !r.value.VNull? ==> RuntimeClass(r.value) == Ok(ResultClass(conv).value)
  {
  }

  /** No built-in converter turns null into anything but null or an
      exception. */
  lemma ApplyKeepsNull(env: Env, external: (string, Value) -> Result<Value>, conv: Converter)
    ensures var r := Apply(env, external, conv, VNull);
      r.Ok? && !conv.Joda? && !conv.Registered? ==> r.value.VNull?
  {
    match conv
    case StringToEnum(e) =>
    case ObjectToStringToEnum(e) =>
    case LongIdToEnum(e) =>
    case IntegerIdToEnum(e) =>
    case _ =>
  }

  /** `LongToString` then `StringToLong` gives back every `long`. */
  lemma LongTextRoundTrip(env: Env, ext: (string, Value) -> Result<Value>, x: int)
    requires InLong(x)
    ensures Apply(env, ext, LongToString, VLong(x)) == Ok(VString(IntToString(x)))
    ensures Apply(env, ext, StringToLong, VString(IntToString(x))) == Ok(VLong(x))
  {
    LongTextPrinted(env, ext, x);
    LongTextParsedBack(env, ext, x);
  }

  lemma LongTextPrinted(env: Env, ext: (string, Value) -> Result<Value>, x: int)
    ensures Apply(env, ext, LongToString, VLong(x)) == Ok(VString(IntToString(x)))
  {
  }

  lemma LongTextParsedBack(env: Env, ext: (string, Value) -> Result<Value>, x: int)
    requires InLong(x)
    ensures Apply(env, ext, StringToLong, VString(IntToString(x))) == Ok(VLong(x))
  {
    LongTextParses(x);
    ApplyParsesLong(env, ext, VString(IntToString(x)));
  }

  /** `StringToLong` is `ParseLongValue`, whatever the environment. */
  lemma ApplyParsesLong(env: Env, ext: (string, Value) -> Result<Value>, v: Value)
    ensures Apply(env, ext, StringToLong, v) == ParseLongValue(v)
  {
  }

  /** `StringToInteger` is `ParseIntValue`. */
  lemma ApplyParsesInt(env: Env, ext: (string, Value) -> Result<Value>, v: Value)
    ensures Apply(env, ext, StringToInteger, v) == ParseIntValue(v)
  {
  }

  lemma LongTextParses(x: int)
    requires InLong(x)
    ensures ParseLongValue(VString(IntToString(x))) == Ok(VLong(x))
  {
    ParseLongToString(x);
    var s := IntToString(x);
    assert !IsTrimmed(s[0]);
    BlankIffAllTrimmed(s);
  }

  /** `IntegerToString` then `StringToInteger` gives back every `int`. */
  lemma IntTextRoundTrip(env: Env, ext: (string, Value) -> Result<Value>, x: int)
    requires InInt(x)
    ensures Apply(env, ext, StringToInteger, Apply(env, ext, IntegerToString, VInt(x)).value) == Ok(VInt(x))
  {
    IntTextPrinted(env, ext, x);
    IntTextParses(x);
    ApplyParsesInt(env, ext, VString(IntToString(x)));
  }

  lemma IntTextPrinted(env: Env, ext: (string, Value) -> Result<Value>, x: int)
    ensures Apply(env, ext, IntegerToString, VInt(x)) == Ok(VString(IntToString(x)))
  {
  }

  lemma IntTextParses(x: int)
    requires InInt(x)
    ensures ParseIntValue(VString(IntToString(x))) == Ok(VInt(x))
  {
    ParseIntToString(x);
  }

  /** Narrowing keeps exactly the `long`s that fit in an `int`, so widening
      then narrowing is the identity. */
  lemma NarrowingKeepsInts(env: Env, ext: (string, Value) -> Result<Value>, x: int)
    ensures Apply(env, ext, LongToInteger, VLong(x)) == Ok(VInt(x)) <==> InInt(x)
    ensures InInt(x) ==> Apply(env, ext, LongToInteger, Apply(env, ext, IntegerToLong, VInt(x)).value) == Ok(VInt(x))
  {
  }

  /** A blank string is no number: `StringToLong` maps it to null, but it
      does not trim, so a number with surrounding blanks is refused. */
  lemma StringToLongBlanks(s: string, k: int)
    ensures IsBlank(s) ==> ParseLongValue(VString(s)) == Ok(VNull)
    ensures !IsBlank(s) && 0 <= k < |s| && s[k] == ' ' ==> ParseLongValue(VString(s)).Err?
  {
    if 0 <= k < |s| && s[k] == ' ' {
      ParseRejectsBlanks(s, k, LONG_MIN, LONG_MAX);
    }
  }

  /** A character survives the trip through a one-char string, and a longer
      string keeps only its first char. */
  lemma CharacterRoundTrip(env: Env, ext: (string, Value) -> Result<Value>, c: char, s: string)
    ensures Apply(env, ext, StringToCharacter, Apply(env, ext, CharacterToString, VChar(c)).value) == Ok(VChar(c))
    ensures |s| > 0 ==> Apply(env, ext, StringToCharacter, VString(s)) == Ok(VChar(s[0]))
    ensures Apply(env, ext, StringToCharacter, VString("")) == Err(IndexOutOfBounds)
  {
  }

  /** An enum constant's name converts back to the constant, and a name
      that is only a constant once upper-cased converts to that constant. */
  lemma EnumNameRoundTrip(env: Env, ext: (string, Value) -> Result<Value>, e: string, name: string, s: string)
    requires HasConstant(env.enums, e, name)
    ensures Apply(env, ext, StringToEnum(e), Apply(env, ext, EnumToString, VEnum(e, name)).value) == Ok(VEnum(e, name))
    ensures !HasConstant(env.enums, e, s) && HasConstant(env.enums, e, ToUpper(s)) ==>
      Apply(env, ext, StringToEnum(e), VString(s)) == Ok(VEnum(e, ToUpper(s)))
    ensures Apply(env, ext, ObjectToStringToEnum(e), VString(name)) == Ok(VEnum(e, name))
  {
  }

  /** The id converters find exactly what the id tables hold. */
  lemma IdConvertersFollowTables(env: Env, ext: (string, Value) -> Result<Value>, e: string, id: int)
    ensures Apply(env, ext, LongIdToEnum(e), VLong(id)).Ok? <==> LookupId(env.longIds, e, Some(id)).Some?
    ensures Apply(env, ext, LongIdToEnum(e), VLong(id)).Ok? ==>
      Apply(env, ext, LongIdToEnum(e), VLong(id)).value == LookupId(env.longIds, e, Some(id)).value
    ensures Apply(env, ext, IntegerIdToEnum(e), VInt(id)).Ok? <==> LookupId(env.intIds, e, Some(id)).Some?
    ensures Apply(env, ext, LongIdToEnum(e), VNull).Err?
  {
  }

  /** `Wrapper` surrounds the value's text and refuses null. */
  lemma WrapperSurrounds(env: Env, ext: (string, Value) -> Result<Value>, left: string, right: string, v: Value)
    ensures v.VNull? <==> Apply(env, ext, Wrapper(left, right), v).Err?
    ensures !v.VNull? ==> Apply(env, ext, Wrapper(left, right), v) == Ok(VString(left + ToString(v).value + right))
  {
  }

  /** `BigDecimal.longValue` truncates toward zero: 2.5 gives 2 and -2.5
      gives -2. */
  lemma DecimalTruncates(env: Env, ext: (string, Value) -> Result<Value>)
    ensures Apply(env, ext, BigDecimalToLong, VDecimal(25, 1)) == Ok(VLong(2))
    ensures Apply(env, ext, BigDecimalToLong, VDecimal(-25, 1)) == Ok(VLong(-2))
  {
    DecimalHalves();
  }

  lemma DecimalHalves()
    ensures DecimalToLong(VDecimal(25, 1)) == Ok(VLong(2)) && DecimalToLong(VDecimal(-25, 1)) == Ok(VLong(-2))
  {
    assert Pow10(1) == 10;
  }

  /** A conversion registered under the exact pair is returned as is. */
  lemma ExactHit(reg: Registry, source: JType, target: JType)
    requires source != target && Cell(reg, source, target).Some?
    ensures GetConverter(reg, source, target) == (Cell(reg, source, target), reg)
  {
  }

  /** `LocalDate -> java.sql.Date` is a built-in cell. */
  lemma BuiltInLocalDateToDate()
    ensures GetConverter(BUILT_IN, TLocalDate, TSqlDate) == (Some(Joda("LocalDateToDate")), BUILT_IN)
  {
    CellAt(BUILT_IN, 9, 0);
    ExactHit(BUILT_IN, TLocalDate, TSqlDate);
  }

  /** `DateTime -> Timestamp` is a built-in cell. */
  lemma BuiltInDateTimeToTimestamp()
    ensures GetConverter(BUILT_IN, TDateTime, TTimestamp) == (Some(Joda("DateTimeToTimestamp")), BUILT_IN)
  {
    CellAt(BUILT_IN, 8, 0);
    ExactHit(BUILT_IN, TDateTime, TTimestamp);
  }

  /** `String -> Long` is a built-in cell. */
  lemma BuiltInStringToLong()
    ensures GetConverter(BUILT_IN, TString, TLong) == (Some(StringToLong), BUILT_IN)
  {
    CellAt(BUILT_IN, 3, 1);
    ExactHit(BUILT_IN, TString, TLong);
  }

  lemma AssignableFromString(to: JType)
    requires Assignable(TString, to)
    ensures to == TString || to == TObject
  {
  }

  lemma AssignableFromEnum(e: string, to: JType)
    requires Assignable(TEnum(e), to)
    ensures to == TEnum(e) || to == TEnumBase || to == TObject
  {
    if to != TEnum(e) {
      assert Assignable(TEnumBase, to);
    }
  }

  lemma AssignableFromClass(name: string, to: JType)
    requires Assignable(TClass(name), to)
    ensures to == TClass(name) || to == TObject
  {
    if to != TClass(name) {
      assert Assignable(TObject, to);
    }
  }

  /** With no `Object` row and no `String` cell for the class or for
      `Object`, nothing converts a `String` into a plain class. */
  lemma NoConverterFromString(reg: Registry, name: string)
    requires forall col :: Cell(reg, TObject, col).None?
    requires Cell(reg, TString, TClass(name)).None? && Cell(reg, TString, TObject).None?
    ensures GetConverter(reg, TString, TClass(name)).0 == None
  {
    forall row, col ensures !Compatible(reg, row, col, TString, TClass(name)) {
      if Assignable(TString, row) && Assignable(TClass(name), col) {
        AssignableFromString(row);
        AssignableFromClass(name, col);
      }
    }
  }

  /** The built-in table has no `Object` row and no row for an enum class. */
  lemma BuiltInRowsAbsent(e: string)
    ensures forall col :: Cell(BUILT_IN, TObject, col).None? && Cell(BUILT_IN, TEnum(e), col).None?
  {
    BuiltInRowKeys();
    forall col ensures Cell(BUILT_IN, TObject, col).None? && Cell(BUILT_IN, TEnum(e), col).None? {
      NoRow(BUILT_IN, TObject, col);
      NoRow(BUILT_IN, TEnum(e), col);
    }
  }

  /** No row of the built-in table is keyed by `Object` or by an enum class. */
  lemma BuiltInRowKeys()
    ensures forall k :: 0 <= k < |BUILT_IN| ==> BUILT_IN[k].0 != TObject && !BUILT_IN[k].0.TEnum?
  {
  }

  /** The built-in `String` row converts to no plain class and not to
      `Object`. */
  lemma BuiltInStringColumns(name: string)
    ensures Cell(BUILT_IN, TString, TClass(name)).None? && Cell(BUILT_IN, TString, TObject).None?
  {
    BuiltInStringColumn(TClass(name));
    BuiltInStringColumn(TObject);
  }

  lemma BuiltInStringColumn(col: JType)
    requires col.TClass? || col == TObject
    ensures Cell(BUILT_IN, TString, col).None?
  {
    NoColumn(BUILT_IN, 3, col);
  }

  /** No built-in conversion reaches an unrelated class from `String`, so
      `getConverter(String, Dummy)` is null. */
  lemma BuiltInNoConverter(name: string)
    ensures GetConverter(BUILT_IN, TString, TClass(name)).0 == None
  {
    BuiltInRowsAbsent("");
    BuiltInStringColumns(name);
    NoConverterFromString(BUILT_IN, name);
  }

  /** The built-in `Enum` row converts to `String` and not to `Object`. */
  lemma BuiltInEnumRow()
    ensures Cell(BUILT_IN, TEnumBase, TString) == Some(EnumToString) && Cell(BUILT_IN, TEnumBase, TObject).None?
  {
    BuiltInEnumCell();
    BuiltInEnumNoObject();
  }

  lemma BuiltInEnumCell()
    ensures Cell(BUILT_IN, TEnumBase, TString) == Some(EnumToString)
  {
    CellAt(BUILT_IN, 2, 0);
  }

  lemma BuiltInEnumNoObject()
    ensures Cell(BUILT_IN, TEnumBase, TObject).None?
  {
    NoColumn(BUILT_IN, 2, TObject);
  }

  /** With no `Object` row, no row of its own and no `Enum -> Object` cell,
      the only cell an enum class can use for String is `Enum -> String`. */
  lemma OnlyEnumBaseCompatible(reg: Registry, e: string, c: Converter)
    requires forall col :: Cell(reg, TObject, col).None? && Cell(reg, TEnum(e), col).None?
    requires Cell(reg, TEnumBase, TString) == Some(c) && Cell(reg, TEnumBase, TObject).None?
    ensures Compatible(reg, TEnumBase, TString, TEnum(e), TString)
    ensures forall row, col :: Compatible(reg, row, col, TEnum(e), TString) ==> Cell(reg, row, col) == Some(c)
  {
    assert Compatible(reg, TEnumBase, TString, TEnum(e), TString) by {
      assert Assignable(TEnumBase, TEnumBase);
      assert Assignable(TEnum(e), TEnumBase);
    }
    forall row, col | Compatible(reg, row, col, TEnum(e), TString)
      ensures Cell(reg, row, col) == Some(c)
    {
      AssignableFromEnum(e, row);
      AssignableFromString(col);
    }
  }

  /** When the only cell compatible with an enum class is `Enum -> String`,
      the search finds it and remembers it under the enum class. */
  lemma EnumFoundViaBase(reg: Registry, e: string, c: Converter)
    requires forall col :: Cell(reg, TObject, col).None? && Cell(reg, TEnum(e), col).None?
    requires Cell(reg, TEnumBase, TString) == Some(c) && Cell(reg, TEnumBase, TObject).None?
    ensures GetConverter(reg, TEnum(e), TString).0 == Some(c)
    ensures Cell(GetConverter(reg, TEnum(e), TString).1, TEnum(e), TString) == Some(c)
  {
    OnlyEnumBaseCompatible(reg, e, c);
    var found := FindCompatible(reg, TEnum(e), TString);
    assert found == Some(c);
    assert Cell(reg, TEnum(e), TString).None?;
    assert GetConverter(reg, TEnum(e), TString) == (Some(c), Register(reg, TEnum(e), TString, c));
    RegisterCell(reg, TEnum(e), TString, c, TEnum(e), TString);
  }

  /** An enum class has no built-in cell of its own, and the search finds
      the one registered for `Enum`. */
  lemma BuiltInEnumToString(e: string)
    ensures GetConverter(BUILT_IN, TEnum(e), TString).0 == Some(EnumToString)
    ensures Cell(GetConverter(BUILT_IN, TEnum(e), TString).1, TEnum(e), TString) == Some(EnumToString)
  {
    BuiltInRowsAbsent(e);
    BuiltInEnumRow();
    EnumFoundViaBase(BUILT_IN, e, EnumToString);
  }
}
