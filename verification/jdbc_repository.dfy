/** The SQL side of a repository: which property is the id, the fixed
    statements built from the entity's schema, the default sort and the
    ORDER BY clause, the partial UPDATE assembled from a change scan, and
    the conversion of parameter values before they are bound. */
module JdbcRepository {
  import opened Wrappers
  import opened JavaStrings
  import opened JavaNumbers
  import opened JavaTypes
  import opened OrderedMaps
  import opened CaseFormat
  import opened Annotations
  import opened DefaultOrder
  import opened ColumnChange
  import opened PropertyHelper
  import opened ObjectBackedContainer
  import opened Enums
  import opened Converters
  import opened RowMappingRepository

  /** `idField` and `idColumn`; the column is null when the class has no
      `@Id` property or the id property has no column. */
  datatype IdSetup = IdSetup(idField: string, idColumn: Option<string>)

  /** The name `id` a class without `@Id` is assumed to use. */
  const ASSUMED_ID: string := "id"

  /** `setupId` as written: Guava's `getOnlyElement` throws
      IllegalArgumentException for a second `@Id` property before the
      warning that promises to use the first is reached. */
  function SetupIdAsWritten(ids: OMap<string, Annotation>, columnOf: OMap<string, string>): (r: Result<IdSetup>)
    ensures r.Err? <==> |ids| > 1
    ensures r.Err? ==> r.error.IllegalArgument?
    ensures |ids| == 0 ==> r == Ok(IdSetup(ASSUMED_ID, None))
    ensures |ids| == 1 ==> r == Ok(IdSetup(ids[0].0, Get(columnOf, ids[0].0)))
  {
    if |ids| == 0 then Ok(IdSetup(ASSUMED_ID, None))
    else if |ids| > 1 then Err(IllegalArgument("expected one element"))
    else Ok(IdSetup(ids[0].0, Get(columnOf, ids[0].0)))
  }

  /** `setupId` as its warning describes it: the first `@Id` property
      encountered is the id; without one the id is assumed to be `id`. */
  function SetupId(ids: OMap<string, Annotation>, columnOf: OMap<string, string>): (r: IdSetup)
    ensures |ids| == 0 ==> r == IdSetup(ASSUMED_ID, None)
    ensures |ids| > 0 ==> HasKey(ids, r.idField) && r.idField == Keys(ids)[0]
    ensures |ids| > 0 ==> r.idColumn == Get(columnOf, r.idField)
  {
    if |ids| == 0 then IdSetup(ASSUMED_ID, None)
    else
      assert Keys(ids)[0] == ids[0].0;
      HasKeyIff(ids, ids[0].0);
      IdSetup(ids[0].0, Get(columnOf, ids[0].0))
  }

  /** The corrected setup agrees with the code wherever the code does not
      throw. */
  lemma SetupIdAgrees(ids: OMap<string, Annotation>, columnOf: OMap<string, string>)
    ensures SetupIdAsWritten(ids, columnOf).Ok? ==> SetupIdAsWritten(ids, columnOf).value == SetupId(ids, columnOf)
  {
  }

  /** The counterexample: an entity with two `@Id` properties cannot get a
      repository as written, while the corrected setup takes the first. */
  lemma TwoIdsThrow(p: string, q: string, columnOf: OMap<string, string>)
    requires p != q
    ensures SetupIdAsWritten([(p, Id), (q, Id)], columnOf).Err?
    ensures SetupId([(p, Id), (q, Id)], columnOf).idField == p
  {
  }

  /** Java string concatenation of a possibly null string. */
  function NullableText(s: Option<string>): (r: string)
    ensures s.Some? ==> r == s.value
    ensures s.None? ==> r == "null"
  {
    match s
    case Some(t) => t
    case None => "null"
  }

  /** The class's own annotations. */
  function ClassAnnotations(k: Klass): seq<Annotation> {
    if k.Klass? then k.annotations else []
  }

  function SimpleName(k: Klass): string {
    if k.Klass? then k.simpleName else "Object"
  }

  /** The table: `@Table`'s name, else the class's simple name in upper
      underscore case. */
  function TableName(k: Klass): (r: string)
    ensures FindAnnotation(ClassAnnotations(k), TableType).Some? ==> r == FindAnnotation(ClassAnnotations(k), TableType).value.tableName
    ensures FindAnnotation(ClassAnnotations(k), TableType).None? ==> r == TableNameOf(SimpleName(k))
  {
    match FindAnnotation(ClassAnnotations(k), TableType)
    case Some(t) => t.tableName
    case None => TableNameOf(SimpleName(k))
  }

  /** Each column prefixed with `:`, the named parameter that fills it. */
  function Parameters(columns: seq<string>): (r: seq<string>)
    ensures |r| == |columns|
    ensures forall i :: 0 <= i < |r| ==> r[i] == ":" + columns[i]
  {
    seq(|columns|, i requires 0 <= i < |columns| => ":" + columns[i])
  }

  /** The statements `buildQueries` fixes. */
  datatype Statements = Statements(
    tableName: string,
    selectById: string,
    selectByIds: string,
    selectAll: string,
    insertStatement: string,
    updateStatement: string,
    deleteStatement: string)

  /** The statement texts of `buildQueries`. The UPDATE text is appended to
      the INSERT builder after the INSERT statement was taken, and the
      builder the update statement is read from is never written, so the
      update statement is empty. */
  function BuildStatements(k: Klass, s: Schema, id: IdSetup): (r: Statements)
    ensures r.tableName == TableName(k)
    ensures r.selectById == "SELECT * FROM " + r.tableName + " WHERE " + NullableText(id.idColumn) + " = ?"
    ensures r.selectByIds == "SELECT * FROM " + r.tableName + " WHERE " + NullableText(id.idColumn) + " = ANY(?)"
    ensures r.selectAll == "SELECT * FROM " + r.tableName
    ensures r.insertStatement == "INSERT INTO " + r.tableName + " (" + Join(", ", s.insertList) + ") VALUES (" + Join(", ", Parameters(s.insertList)) + ")"
    ensures r.updateStatement == ""
    ensures r.deleteStatement == "DELETE FROM " + r.tableName + " WHERE " + NullableText(id.idColumn) + " = :id;"
  {
    var table := TableName(k);
    var idColumn := NullableText(id.idColumn);
    Statements(
      table,
      "SELECT * FROM " + table + " WHERE " + idColumn + " = ?",
      "SELECT * FROM " + table + " WHERE " + idColumn + " = ANY(?)",
      "SELECT * FROM " + table,
      "INSERT INTO " + table + " (" + Join(", ", s.insertList) + ") VALUES (" + Join(", ", Parameters(s.insertList)) + ")",
      "",
      "DELETE FROM " + table + " WHERE " + idColumn + " = :id;")
  }

  /** A class without `@Id` and without a column for `id` selects by the
      column named `null`. */
  lemma NoIdSelectsNull(k: Klass, s: Schema)
    ensures BuildStatements(k, s, SetupId([], s.columnOf)).selectById == "SELECT * FROM " + TableName(k) + " WHERE " + "null" + " = ?"
  {
    assert SetupId([], s.columnOf).idColumn == None;
  }

  /** Spring's `Sort.Order`: a direction and a property (here a column). */
  datatype Order = Order(direction: Direction, property: string)

  /** One entry of the default-sort `TreeMap`: the annotation (its order and
      direction) and the property it was put with. */
  datatype Ordering = Ordering(order: int, direction: Direction, property: string)

  predicate OrdersSorted(m: seq<Ordering>) {
    forall i, j :: 0 <= i < j < |m| ==> m[i].order < m[j].order
  }

  /** The entry whose annotation compares equal to an order value. */
  function At(m: seq<Ordering>, order: int): (r: Option<Ordering>)
    ensures r.Some? ==> r.value in m && r.value.order == order
    ensures r.None? <==> forall x :: x in m ==> x.order != order
  {
    if |m| == 0 then None
    else if m[0].order == order then Some(m[0])
    else At(m[1..], order)
  }

  lemma AtSorted(m: seq<Ordering>, x: Ordering)
    requires OrdersSorted(m) && x in m
    ensures At(m, x.order) == Some(x)
  {
    if m[0] != x {
      assert x in m[1..];
      AtSorted(m[1..], x);
    }
  }

  lemma AtCons(x: Ordering, m: seq<Ordering>, order: int)
    ensures At([x] + m, order) == if x.order == order then Some(x) else At(m, order)
  {
    assert ([x] + m)[1..] == m;
  }

  /** `put(annotation, property)` into the `TreeMap` ordered by the
      comparator: an annotation comparing equal to a key already present
      keeps that key (and so its direction) and replaces the property. */
  function PutOrdering(m: seq<Ordering>, order: int, direction: Direction, property: string): (r: seq<Ordering>)
    requires OrdersSorted(m)
    ensures OrdersSorted(r)
    ensures forall x :: x in r ==> x.order == order || x in m
    decreases |m|
  {
    if |m| == 0 then [Ordering(order, direction, property)]
    else if Compare(order, m[0].order) == 0 then
      assert forall x :: x in m[1..] ==> x in m;
      [m[0].(property := property)] + m[1..]
    else if Compare(order, m[0].order) < 0 then [Ordering(order, direction, property)] + m
    else
      var rest := PutOrdering(m[1..], order, direction, property);
      assert forall x :: x in rest ==> x.order > m[0].order;
      [m[0]] + rest
  }

  /** The same put with `DefaultOrder.Comparator` as written, whose 32-bit
      difference can wrap: each entry is passed while the new annotation
      compares above it. */
  function PutOrderingAsWritten(m: seq<Ordering>, order: int, direction: Direction, property: string): (r: seq<Ordering>)
    requires InInt(order) && forall x :: x in m ==> InInt(x.order)
    ensures |m| <= |r| <= |m| + 1
    ensures forall x :: x in r ==> x in m || x.property == property
    decreases |m|
  {
    if |m| == 0 then [Ordering(order, direction, property)]
    else if CompareAsWritten(order, m[0].order) == 0 then
      assert forall x :: x in m[1..] ==> x in m;
      [m[0].(property := property)] + m[1..]
    else if CompareAsWritten(order, m[0].order) < 0 then [Ordering(order, direction, property)] + m
    else
      assert forall x :: x in m[1..] ==> x in m;
      [m[0]] + PutOrderingAsWritten(m[1..], order, direction, property)
  }

  /** While no order differs from the new one by more than an `int` holds,
      the comparator as written puts exactly as the intended one does. */
  lemma {:induction false} PutOrderingAgreesWithoutOverflow(m: seq<Ordering>, order: int, direction: Direction, property: string)
    requires OrdersSorted(m) && InInt(order)
    requires forall x :: x in m ==> InInt(x.order) && InInt(order - x.order)
    ensures PutOrderingAsWritten(m, order, direction, property) == PutOrdering(m, order, direction, property)
    decreases |m|
  {
    if |m| > 0 {
      AsWrittenAgreesWithoutOverflow(order, m[0].order);
      assert forall x :: x in m[1..] ==> x in m;
      PutOrderingAgreesWithoutOverflow(m[1..], order, direction, property);
    }
  }

  /** With orders `Integer.MAX_VALUE` and -1 the difference wraps: the
      comparator as written puts MAX_VALUE first, the intended one last. */
  lemma PutOrderingOverflow()
    ensures PutOrderingAsWritten([Ordering(-1, Asc, "a")], INT_MAX, Asc, "b")[0].order == INT_MAX
    ensures PutOrdering([Ordering(-1, Asc, "a")], INT_MAX, Asc, "b")[0].order == -1
  {
    assert CompareAsWritten(INT_MAX, -1) < 0;
  }

  /** No entry of a sorted map has an order below its first one. */
  lemma BelowFirstAbsent(m: seq<Ordering>, order: int)
    requires OrdersSorted(m) && |m| > 0 && order < m[0].order
    ensures At(m, order).None?
  {
    forall x | x in m ensures x.order != order {
      var i :| 0 <= i < |m| && m[i] == x;
      if i > 0 { assert m[0].order < m[i].order; }
    }
  }

  /** After the put, the order value finds the kept direction and the new
      property, and every other order value finds what it found before. */
  lemma {:induction false} PutOrderingAt(m: seq<Ordering>, order: int, direction: Direction, property: string, o: int)
    requires OrdersSorted(m)
    ensures At(PutOrdering(m, order, direction, property), o) ==
      if o == order then Some(Ordering(order, if At(m, order).Some? then At(m, order).value.direction else direction, property))
      else At(m, o)
    decreases |m|
  {
    if |m| == 0 {
      AtCons(Ordering(order, direction, property), [], o);
    } else {
      assert m == [m[0]] + m[1..];
      AtCons(m[0], m[1..], o);
      if Compare(order, m[0].order) == 0 {
        AtCons(m[0].(property := property), m[1..], o);
      } else if Compare(order, m[0].order) < 0 {
        AtCons(Ordering(order, direction, property), m, o);
        BelowFirstAbsent(m, order);
      } else {
        AtCons(m[0], m[1..], order);
        PutOrderingAt(m[1..], order, direction, property, o);
        AtCons(m[0], PutOrdering(m[1..], order, direction, property), o);
      }
    }
  }

  /** The direction of the first annotation with the order value, the key
      a `TreeMap` keeps. */
  function FirstDirection(anns: OMap<string, Annotation>, order: int): (r: Option<Direction>)
    ensures r.Some? <==> exists i :: 0 <= i < |anns| && anns[i].1.DefaultOrderAnn? && anns[i].1.order == order
    decreases |anns|
  {
    if |anns| == 0 then None
    else
      var before := FirstDirection(anns[..|anns| - 1], order);
      var a := anns[|anns| - 1].1;
      assert forall i :: 0 <= i < |anns| - 1 ==> anns[..|anns| - 1][i] == anns[i];
      if before.Some? then before
      else if a.DefaultOrderAnn? && a.order == order then Some(a.direction)
      else None
  }

  /** The property of the last annotation with the order value, the value
      a `TreeMap` keeps. */
  function LastProperty(anns: OMap<string, Annotation>, order: int): (r: Option<string>)
    ensures r.Some? <==> exists i :: 0 <= i < |anns| && anns[i].1.DefaultOrderAnn? && anns[i].1.order == order
    decreases |anns|
  {
    if |anns| == 0 then None
    else
      var last := anns[|anns| - 1];
      if last.1.DefaultOrderAnn? && last.1.order == order then Some(last.0)
      else
        var before := LastProperty(anns[..|anns| - 1], order);
        assert forall i :: 0 <= i < |anns| - 1 ==> anns[..|anns| - 1][i] == anns[i];
        before
  }

  /** The `TreeMap` built from the `@DefaultOrder` annotations in map
      order. */
  function Orderings(anns: OMap<string, Annotation>): (r: seq<Ordering>)
    ensures OrdersSorted(r)
    decreases |anns|
  {
    if |anns| == 0 then []
    else
      var last := anns[|anns| - 1];
      var before := Orderings(anns[..|anns| - 1]);
      if last.1.DefaultOrderAnn? then PutOrdering(before, last.1.order, last.1.direction, last.0)
      else before
  }

  /** The map has one entry per order value among the annotations, and the
      entry carries the first such annotation's direction and the last
      annotated property. */
  lemma {:induction false} OrderingsAt(anns: OMap<string, Annotation>, o: int)
    ensures At(Orderings(anns), o).Some? <==> LastProperty(anns, o).Some?
    ensures At(Orderings(anns), o).Some? ==> At(Orderings(anns), o).value.property == LastProperty(anns, o).value
    ensures At(Orderings(anns), o).Some? ==> Some(At(Orderings(anns), o).value.direction) == FirstDirection(anns, o)
    decreases |anns|
  {
    if |anns| > 0 {
      var front := anns[..|anns| - 1];
      var last := anns[|anns| - 1];
      OrderingsAt(front, o);
      if last.1.DefaultOrderAnn? {
        PutOrderingAt(Orderings(front), last.1.order, last.1.direction, last.0, o);
      }
    }
  }

  /** The default sort: the orderings mapped to their columns, or, with
      none, ascending on the id property's column. Spring's `Order` refuses
      a null property with IllegalArgumentException. */
  function DefaultSort(anns: OMap<string, Annotation>, columnOf: OMap<string, string>, idField: string): (r: Result<seq<Order>>)
    ensures var ords := Orderings(anns);
      |ords| == 0 ==> r == (match Get(columnOf, idField) case Some(col) => Ok([Order(Asc, col)]) case None => Err(IllegalArgument("Property must not null or empty!")))
    ensures var ords := Orderings(anns);
      |ords| > 0 ==> (r.Ok? <==> forall i :: 0 <= i < |ords| ==> Get(columnOf, ords[i].property).Some?)
    ensures r.Ok? ==> |r.value| > 0
    ensures var ords := Orderings(anns);
      |ords| > 0 && r.Ok? ==> |r.value| == |ords| && forall i :: 0 <= i < |ords| ==>
        r.value[i].direction == ords[i].direction && Some(r.value[i].property) == Get(columnOf, ords[i].property)
  {
    var ords := Orderings(anns);
    if |ords| == 0 then
      match Get(columnOf, idField)
      case Some(col) => Ok([Order(Asc, col)])
      case None => Err(IllegalArgument("Property must not null or empty!"))
    else ToOrders(ords, columnOf)
  }

  function ToOrders(ords: seq<Ordering>, columnOf: OMap<string, string>): (r: Result<seq<Order>>)
    ensures r.Ok? <==> forall i :: 0 <= i < |ords| ==> Get(columnOf, ords[i].property).Some?
    ensures r.Ok? ==> |r.value| == |ords| && forall i :: 0 <= i < |ords| ==>
      r.value[i].direction == ords[i].direction && Some(r.value[i].property) == Get(columnOf, ords[i].property)
    ensures r.Err? ==> r.error.IllegalArgument?
  {
    if |ords| == 0 then Ok([])
    else
      match Get(columnOf, ords[0].property)
      case None => Err(IllegalArgument("Property must not null or empty!"))
      case Some(col) =>
        var rest :- ToOrders(ords[1..], columnOf);
        Ok([Order(ords[0].direction, col)] + rest)
  }

  /** What the constructor leaves in a repository: the class, the column
      schema, the id, the fixed statements and the default sort. */
  datatype Repository = Repository(
    klass: Klass,
    schema: Schema,
    id: IdSetup,
    statements: Statements,
    defaultSort: seq<Order>)

  /** The constructor: `scanColumns` (in the superclass constructor), then
      `setupId`, then `buildQueries`. The id is set up as its warning
      describes; `SetupIdAsWritten` records where the code differs. */
  function NewRepository(c: Container): (r: Result<Repository>)
    ensures r.Ok? <==>
      && ScanColumns(c).Ok?
      && AnnotationsOf(c, IdType, true).Ok?
      && AnnotationsOf(c, DefaultOrderType, true).Ok?
      && DefaultSort(AnnotationsOf(c, DefaultOrderType, true).value, ScanColumns(c).value.columnOf,
                     SetupId(AnnotationsOf(c, IdType, true).value, ScanColumns(c).value.columnOf).idField).Ok?
    ensures r.Ok? ==> Valid(r.value.schema) && r.value.klass == c.klass
    ensures r.Ok? ==> |r.value.defaultSort| > 0
    ensures r.Ok? ==> r.value.statements.tableName == TableName(c.klass) && r.value.statements.updateStatement == ""
    ensures r.Ok? ==> r.value.id.idColumn.Some? ==> HasKey(r.value.schema.columnOf, r.value.id.idField)
  {
    var schema :- ScanColumns(c);
    var ids :- AnnotationsOf(c, IdType, true);
    var id := SetupId(ids, schema.columnOf);
    var orders :- AnnotationsOf(c, DefaultOrderType, true);
    var sort :- DefaultSort(orders, schema.columnOf, id.idField);
    Ok(Repository(c.klass, schema, id, BuildStatements(c.klass, schema, id), sort))
  }

  /** Spring's `Pageable` as far as the clause reads it: an optional sort,
      the page size and the offset. */
  datatype Pageable = Pageable(sort: Option<seq<Order>>, pageSize: int, offset: int)

  /** The sort the clause lists: the page's own orders followed by the
      default sort (`Sort.and`), or the default sort alone. */
  function CurrentSort(p: Option<Pageable>, defaultSort: seq<Order>): (r: seq<Order>)
    ensures p.None? || p.value.sort.None? ==> r == defaultSort
    ensures p.Some? && p.value.sort.Some? ==> |r| == |p.value.sort.value| + |defaultSort|
    ensures p.Some? && p.value.sort.Some? ==> forall i :: 0 <= i < |p.value.sort.value| ==> r[i] == p.value.sort.value[i]
    ensures |r| >= |defaultSort| && forall i :: 0 <= i < |defaultSort| ==> r[|r| - |defaultSort| + i] == defaultSort[i]
  {
    if p.Some? && p.value.sort.Some? then p.value.sort.value + defaultSort else defaultSort
  }

  /** One listed order: a space, the column, a space and the direction. */
  function OrderItem(o: Order): string {
    " " + o.property + " " + DirectionName(o.direction)
  }

  /** An item reads back as a space, the property, a space and the
      direction's name. */
  lemma OrderItemParts(o: Order)
    ensures var r := OrderItem(o);
      && |r| == |o.property| + 2 + |DirectionName(o.direction)|
      && r[0] == ' ' && r[1..|o.property| + 1] == o.property
      && r[|o.property| + 1] == ' ' && r[|o.property| + 2..] == DirectionName(o.direction)
  {
  }

  function OrderItems(orders: seq<Order>): (r: seq<string>)
    ensures |r| == |orders|
    ensures forall i :: 0 <= i < |orders| ==> r[i] == OrderItem(orders[i])
  {
    seq(|orders|, i requires 0 <= i < |orders| => OrderItem(orders[i]))
  }

  /** The clause as one text: ` ORDER BY` and the items joined by commas. */
  function OrderByClause(orders: seq<Order>): (r: string)
    ensures |r| >= 9 && r[..9] == " ORDER BY"
    ensures |orders| == 0 ==> r == " ORDER BY"
    ensures |orders| == 1 ==> r == " ORDER BY" + OrderItem(orders[0])
  {
    " ORDER BY" + Join(",", OrderItems(orders))
  }

  /** The paging suffix, present exactly when a page was given. */
  function PageClause(p: Option<Pageable>): (r: string)
    ensures p.None? <==> r == ""
  {
    match p
    case None => ""
    case Some(pg) => " LIMIT " + IntToString(pg.pageSize) + " OFFSET " + IntToString(pg.offset)
  }

  /** One more order extends the listed text by a comma (unless it is the
      first) and its item. */
  lemma ListedStep(orders: seq<Order>, i: nat)
    requires i < |orders|
    ensures Join(",", OrderItems(orders[..i + 1])) ==
      if i == 0 then OrderItem(orders[0]) else Join(",", OrderItems(orders[..i])) + "," + OrderItem(orders[i])
  {
    assert OrderItems(orders[..i + 1]) == OrderItems(orders[..i]) + [OrderItem(orders[i])];
    if i > 0 {
      JoinAppend(",", OrderItems(orders[..i]), [OrderItem(orders[i])]);
    }
  }

  /** The loop of `appendOrderByClause`: with its `first` flag it writes a
      comma before every item but the first, which is the comma-joined list. */
  method ListOrders(current: seq<Order>) returns (listed: string)
    ensures listed == Join(",", OrderItems(current))
  {
    listed := "";
    var first := true;
    var i := 0;
    while i < |current|
      invariant 0 <= i <= |current|
      invariant first <==> i == 0
      invariant listed == Join(",", OrderItems(current[..i]))
    {
      ListedStep(current, i);
      if !first {
        listed := listed + ",";
      }
      listed := listed + OrderItem(current[i]);
      first := false;
      i := i + 1;
    }
    assert current[..|current|] == current;
  }

  /** `appendOrderByClause`: ` ORDER BY`, the listed orders and, for a page,
      its `LIMIT` and `OFFSET`. */
  method AppendOrderByClause(p: Option<Pageable>, defaultSort: seq<Order>, sb: string) returns (out: string)
    ensures out == sb + OrderByClause(CurrentSort(p, defaultSort)) + PageClause(p)
  {
    var current := CurrentSort(p, defaultSort);
    var listed := ListOrders(current);
    assert OrderByClause(current) == " ORDER BY" + listed;
    assert sb + " ORDER BY" + listed == sb + (" ORDER BY" + listed);
    out := sb + " ORDER BY" + listed;
    if p.Some? {
      var page := " LIMIT " + IntToString(p.value.pageSize) + " OFFSET " + IntToString(p.value.offset);
      assert PageClause(p) == page;
      out := out + page;
    } else {
      assert PageClause(p) == "";
    }
  }

  lemma OrderItemsAppend(a: seq<Order>, b: seq<Order>)
    ensures OrderItems(a + b) == OrderItems(a) + OrderItems(b)
  {
    assert forall i :: 0 <= i < |a| + |b| ==> (a + b)[i] == if i < |a| then a[i] else b[i - |a|];
  }

  /** A page's own orders come first and the default sort follows them
      after one comma. */
  lemma PageSortFirst(p: Pageable, defaultSort: seq<Order>)
    requires p.sort.Some? && |p.sort.value| > 0 && |defaultSort| > 0
    ensures OrderByClause(CurrentSort(Some(p), defaultSort)) ==
      OrderByClause(p.sort.value) + "," + Join(",", OrderItems(defaultSort))
  {
    var xs := OrderItems(p.sort.value);
    var ys := OrderItems(defaultSort);
    assert CurrentSort(Some(p), defaultSort) == p.sort.value + defaultSort;
    OrderItemsAppend(p.sort.value, defaultSort);
    assert OrderByClause(p.sort.value + defaultSort) == " ORDER BY" + Join(",", xs + ys);
    JoinAppend(",", xs, ys);
    var ja := Join(",", xs);
    var jb := Join(",", ys);
    assert " ORDER BY" + (ja + "," + jb) == " ORDER BY" + ja + "," + jb;
  }

  /** A bound parameter: a plain value, or a `SqlParameterValue` of SQL type
      `OTHER`. */
  datatype SqlParam = Plain(value: Value) | Other(value: Value)

  /** `AUTOMATIC_PARAMETER_CONVERSIONS`, looked up by exact class. */
  function AutomaticConversion(t: JType): (r: Option<JType>)
    ensures r.Some? <==> t == TLocalDate || t == TDateTime
    ensures t == TLocalDate ==> r == Some(TSqlDate)
    ensures t == TDateTime ==> r == Some(TTimestamp)
  {
    if t == TLocalDate then Some(TSqlDate)
    else if t == TDateTime then Some(TTimestamp)
    else None
  }

  /** `getId()` of an `Identified` enum constant. */
  function EnumId(env: EnumEnv, enumName: string, constant: string): (r: Value)
    ensures HasConstant(env, enumName, constant) ==>
      (exists i :: 0 <= i < |Constants(env, enumName)| && Constants(env, enumName)[i].name == constant && Constants(env, enumName)[i].id == r)
  {
    FirstId(Constants(env, enumName), constant)
  }

  function FirstId(cs: seq<EnumConstant>, constant: string): (r: Value)
    ensures (exists i :: 0 <= i < |cs| && cs[i].name == constant) ==> exists i :: 0 <= i < |cs| && cs[i].name == constant && cs[i].id == r
  {
    if |cs| == 0 then VNull
    else if cs[0].name == constant then cs[0].id
    else
      var r := FirstId(cs[1..], constant);
      assert (exists i :: 0 <= i < |cs| && cs[i].name == constant) ==> exists i :: 0 <= i < |cs[1..]| && cs[1..][i].name == constant by {
        if exists i :: 0 <= i < |cs| && cs[i].name == constant {
          var i :| 0 <= i < |cs| && cs[i].name == constant;
          assert cs[1..][i - 1] == cs[i];
        }
      }
      assert (exists i :: 0 <= i < |cs[1..]| && cs[1..][i].name == constant && cs[1..][i].id == r) ==> exists i :: 0 <= i < |cs| && cs[i].name == constant && cs[i].id == r by {
        if exists i :: 0 <= i < |cs[1..]| && cs[1..][i].name == constant && cs[1..][i].id == r {
          var i :| 0 <= i < |cs[1..]| && cs[1..][i].name == constant && cs[1..][i].id == r;
          assert cs[i + 1] == cs[1..][i];
        }
      }
      r
  }

  /** The message of the RuntimeException for a missing conversion. */
  const CONVERTER_MISSING: string := "Converter required and not found"

  /** `convertParameterValue`, returning the registry as the converter
      lookup leaves it. `identified` names the enum classes that implement
      `Identified`. */
  function ConvertParameterValue(reg: Registry, env: Env, ext: (string, Value) -> Result<Value>, identified: set<string>, v: Value): (r: (Result<SqlParam>, Registry))
    ensures v.VNull? ==> r == (Ok(Plain(VNull)), reg)
    ensures v.VEnum? ==> r.1 == reg && r.0.Ok?
    ensures v.VEnum? && v.enumName in identified ==> r.0.value == Other(EnumId(env.enums, v.enumName, v.constant))
    ensures v.VEnum? && v.enumName !in identified ==> r.0.value == Other(VString(v.constant))
    ensures r.0.Ok? && r.0.value.Other? ==> v.VEnum?
    ensures !v.VNull? && !v.VEnum? && AutomaticConversion(RuntimeClass(v).value).None? ==> r == (Ok(Plain(v)), reg)
    ensures r.0.Err? ==> !v.VNull? && AutomaticConversion(RuntimeClass(v).value).Some?
    ensures !v.VNull? && !v.VEnum? && AutomaticConversion(RuntimeClass(v).value).Some? ==>
      var found := GetConverter(reg, RuntimeClass(v).value, AutomaticConversion(RuntimeClass(v).value).value);
      && r.1 == found.1
      && (found.0.None? ==> r.0 == Err(Runtime(CONVERTER_MISSING)))
      && (found.0.Some? ==> (r.0.Ok? <==> Apply(env, ext, found.0.value, v).Ok?))
      && (found.0.Some? && r.0.Ok? ==> r.0.value == Plain(Apply(env, ext, found.0.value, v).value))
  {
    if v.VNull? then (Ok(Plain(VNull)), reg)
    else if v.VEnum? then
      if v.enumName in identified then (Ok(Other(EnumId(env.enums, v.enumName, v.constant))), reg)
      else (Ok(Other(VString(v.constant))), reg)
    else
      var from := RuntimeClass(v).value;
      match AutomaticConversion(from)
      case None => (Ok(Plain(v)), reg)
      case Some(to) =>
        var found := GetConverter(reg, from, to);
        match found.0
        case None => (Err(Runtime(CONVERTER_MISSING)), found.1)
        case Some(conv) =>
          match Apply(env, ext, conv, v)
          case Ok(w) => (Ok(Plain(w)), found.1)
          case Err(e) => (Err(e), found.1)
  }

  /** A value of an automatically converted class whose conversion sits
      at its exact cell is bound as the converted value, and the lookup
      leaves the table as it was. */
  lemma ExactCellConverts(reg: Registry, env: Env, ext: (string, Value) -> Result<Value>, identified: set<string>, v: Value, conv: Converter)
    requires v.VObject? && AutomaticConversion(v.cls).Some?
    requires GetConverter(reg, v.cls, AutomaticConversion(v.cls).value) == (Some(conv), reg)
    ensures ConvertParameterValue(reg, env, ext, identified, v).1 == reg
    ensures ConvertParameterValue(reg, env, ext, identified, v).0.Ok? <==> Apply(env, ext, conv, v).Ok?
  {
    assert RuntimeClass(v) == Ok(v.cls);
  }

  /** After a put the key finds the new value and every other key finds
      what it found before. */
  lemma PutFrame<V>(m: OMap<string, V>, k: string, v: V)
    ensures forall k' :: Get(Put(m, k, v), k') == if k' == k then Some(v) else Get(m, k')
  {
    forall k' ensures Get(Put(m, k, v), k') == if k' == k then Some(v) else Get(m, k') {
      PutGet(m, k, v, k');
    }
  }

  /** `addValue` on the converting parameter source for every change in map
      order: each new value is converted and put under its parameter name. */
  function BindChanges(changes: OMap<string, ColumnChange>, params: OMap<string, SqlParam>, reg: Registry, env: Env,
                       ext: (string, Value) -> Result<Value>, identified: set<string>): (r: (Result<OMap<string, SqlParam>>, Registry))
    ensures r.0.Ok? ==> forall p :: p in changes ==> HasKey(r.0.value, p.1.parameterName)
    ensures r.0.Ok? ==> forall k :: (forall p :: p in changes ==> p.1.parameterName != k) ==> Get(r.0.value, k) == Get(params, k)
    decreases |changes|
  {
    if |changes| == 0 then (Ok(params), reg)
    else
      var front := changes[..|changes| - 1];
      var last := changes[|changes| - 1];
      var before := BindChanges(front, params, reg, env, ext, identified);
      match before.0
      case Err(e) => (Err(e), before.1)
      case Ok(bound) =>
        var converted := ConvertParameterValue(before.1, env, ext, identified, last.1.newValue);
        match converted.0
        case Err(e) => (Err(e), converted.1)
        case Ok(w) =>
          var r := Put(bound, last.1.parameterName, w);
          PutFrame(bound, last.1.parameterName, w);
          assert changes == front + [last];
          assert forall p :: p in changes ==> HasKey(r, p.1.parameterName) by {
            forall p | p in changes ensures HasKey(r, p.1.parameterName) {
              if p != last {
                assert p in front;
                assert HasKey(bound, p.1.parameterName);
                assert Get(bound, p.1.parameterName).Some?;
              }
              assert Get(r, p.1.parameterName).Some?;
            }
          }
          assert forall k :: (forall p :: p in changes ==> p.1.parameterName != k) ==> Get(r, k) == Get(params, k) by {
            forall k | forall p :: p in changes ==> p.1.parameterName != k
              ensures Get(r, k) == Get(params, k)
            {
              assert last in changes;
              assert forall p :: p in front ==> p in changes;
            }
          }
          (Ok(r), converted.1)
  }

  /** A successful binding is the binding of all but the last change with
      the last change's converted value put on top. */
  lemma BindChangesLastPut(changes: OMap<string, ColumnChange>, params: OMap<string, SqlParam>, reg: Registry, env: Env,
                           ext: (string, Value) -> Result<Value>, identified: set<string>)
    requires |changes| > 0 && BindChanges(changes, params, reg, env, ext, identified).0.Ok?
    ensures var last := changes[|changes| - 1];
      var before := BindChanges(changes[..|changes| - 1], params, reg, env, ext, identified);
      var converted := ConvertParameterValue(before.1, env, ext, identified, last.1.newValue);
      && before.0.Ok? && converted.0.Ok?
      && BindChanges(changes, params, reg, env, ext, identified).0.value == Put(before.0.value, last.1.parameterName, converted.0.value)
  {
  }

  /** The parameter of change `c` holds its new value as
      `convertParameterValue` converts it against registry `r`. */
  predicate BoundTo(bound: OMap<string, SqlParam>, r: Registry, env: Env, ext: (string, Value) -> Result<Value>,
                    identified: set<string>, c: ColumnChange)
  {
    var converted := ConvertParameterValue(r, env, ext, identified, c.newValue);
    converted.0.Ok? && Get(bound, c.parameterName) == Some(converted.0.value)
  }

  /** A put under another parameter keeps a binding. */
  lemma BoundToPut(bound: OMap<string, SqlParam>, r: Registry, env: Env, ext: (string, Value) -> Result<Value>,
                   identified: set<string>, c: ColumnChange, k: string, w: SqlParam)
    requires BoundTo(bound, r, env, ext, identified, c) && k != c.parameterName
    ensures BoundTo(Put(bound, k, w), r, env, ext, identified, c)
  {
    PutGet(bound, k, w, c.parameterName);
  }

  /** After a successful binding, the parameter of a change no later change
      shares holds that change's new value as `convertParameterValue`
      converted it, against the registry the earlier conversions left. */
  lemma {:induction false} BindChangesBinds(changes: OMap<string, ColumnChange>, params: OMap<string, SqlParam>, reg: Registry, env: Env,
                                            ext: (string, Value) -> Result<Value>, identified: set<string>, i: int)
    requires 0 <= i < |changes| && forall j :: i < j < |changes| ==> changes[j].1.parameterName != changes[i].1.parameterName
    requires BindChanges(changes, params, reg, env, ext, identified).0.Ok?
    ensures var converted := ConvertParameterValue(BindChanges(changes[..i], params, reg, env, ext, identified).1, env, ext, identified, changes[i].1.newValue);
      converted.0.Ok? && Get(BindChanges(changes, params, reg, env, ext, identified).0.value, changes[i].1.parameterName) == Some(converted.0.value)
  {
    BoundAtHolds(changes, params, reg, env, ext, identified, i);
  }

  /** `BindChangesBinds` by induction over the changes, stated with `BoundTo`. */
  lemma {:induction false} BoundAtHolds(changes: OMap<string, ColumnChange>, params: OMap<string, SqlParam>, reg: Registry, env: Env,
                                        ext: (string, Value) -> Result<Value>, identified: set<string>, i: int)
    requires 0 <= i < |changes| && forall j :: i < j < |changes| ==> changes[j].1.parameterName != changes[i].1.parameterName
    requires BindChanges(changes, params, reg, env, ext, identified).0.Ok?
    ensures BoundTo(BindChanges(changes, params, reg, env, ext, identified).0.value,
                    BindChanges(changes[..i], params, reg, env, ext, identified).1, env, ext, identified, changes[i].1)
    decreases |changes|
  {
    var n := |changes| - 1;
    if i == n {
      BoundLast(changes, params, reg, env, ext, identified);
    } else {
      var front := changes[..n];
      BindChangesLastPut(changes, params, reg, env, ext, identified);
      assert forall j :: i < j < |front| ==> front[j] == changes[j];
      BoundAtHolds(front, params, reg, env, ext, identified, i);
      BoundEarlier(changes, params, reg, env, ext, identified, i);
    }
  }

  /** The last change is bound to its converted value. */
  lemma BoundLast(changes: OMap<string, ColumnChange>, params: OMap<string, SqlParam>, reg: Registry, env: Env,
                  ext: (string, Value) -> Result<Value>, identified: set<string>)
    requires |changes| > 0 && BindChanges(changes, params, reg, env, ext, identified).0.Ok?
    ensures var n := |changes| - 1;
      BoundTo(BindChanges(changes, params, reg, env, ext, identified).0.value,
              BindChanges(changes[..n], params, reg, env, ext, identified).1, env, ext, identified, changes[n].1)
  {
    var n := |changes| - 1;
    BindChangesLastPut(changes, params, reg, env, ext, identified);
    var before := BindChanges(changes[..n], params, reg, env, ext, identified);
    var converted := ConvertParameterValue(before.1, env, ext, identified, changes[n].1.newValue);
    PutGet(before.0.value, changes[n].1.parameterName, converted.0.value, changes[n].1.parameterName);
  }

  /** The last change's put keeps the binding of an earlier change under
      another parameter. */
  lemma BoundEarlier(changes: OMap<string, ColumnChange>, params: OMap<string, SqlParam>, reg: Registry, env: Env,
                     ext: (string, Value) -> Result<Value>, identified: set<string>, i: int)
    requires 0 <= i < |changes| - 1 && changes[|changes| - 1].1.parameterName != changes[i].1.parameterName
    requires BindChanges(changes, params, reg, env, ext, identified).0.Ok?
    requires var front := changes[..|changes| - 1];
      BindChanges(front, params, reg, env, ext, identified).0.Ok? &&
      BoundTo(BindChanges(front, params, reg, env, ext, identified).0.value,
              BindChanges(front[..i], params, reg, env, ext, identified).1, env, ext, identified, front[i].1)
    ensures BoundTo(BindChanges(changes, params, reg, env, ext, identified).0.value,
                    BindChanges(changes[..i], params, reg, env, ext, identified).1, env, ext, identified, changes[i].1)
  {
    var n := |changes| - 1;
    var front := changes[..n];
    BindChangesLastPut(changes, params, reg, env, ext, identified);
    var before := BindChanges(front, params, reg, env, ext, identified);
    var converted := ConvertParameterValue(before.1, env, ext, identified, changes[n].1.newValue);
    assert front[..i] == changes[..i] && front[i] == changes[i];
    BoundToPut(before.0.value, BindChanges(changes[..i], params, reg, env, ext, identified).1, env, ext, identified,
               changes[i].1, changes[n].1.parameterName, converted.0.value);
  }

  /** Binding fails only where a conversion can fail: when every new value
      converts trivially, the binding succeeds. */
  lemma {:induction false} TrivialBindingSucceeds(changes: OMap<string, ColumnChange>, params: OMap<string, SqlParam>, reg: Registry, env: Env,
                                                  ext: (string, Value) -> Result<Value>, identified: set<string>)
    requires forall p :: p in changes ==> ConvertsTrivially(p.1.newValue)
    ensures BindChanges(changes, params, reg, env, ext, identified).0.Ok?
    decreases |changes|
  {
    if |changes| > 0 {
      var front := changes[..|changes| - 1];
      assert forall p :: p in front ==> p in changes;
      TrivialBindingSucceeds(front, params, reg, env, ext, identified);
      assert changes[|changes| - 1] in changes;
    }
  }

  /** A value whose conversion cannot fail: null, an enum, or a value of a
      class with no automatic conversion. */
  predicate ConvertsTrivially(v: Value) {
    v.VNull? || v.VEnum? || AutomaticConversion(RuntimeClass(v).value).None?
  }

  /** What `partialUpdate` does: nothing when no column changed, otherwise
      the UPDATE statement with its bound parameters. */
  datatype UpdateOutcome = Unchanged | Execute(sql: string, params: OMap<string, SqlParam>)

  /** The assignments of the changes in map order. */
  function Assignments(changes: OMap<string, ColumnChange>): (r: seq<string>)
    ensures |r| == |changes|
    ensures forall i :: 0 <= i < |changes| ==> r[i] == changes[i].1.assignment
  {
    seq(|changes|, i requires 0 <= i < |changes| => changes[i].1.assignment)
  }

  /** The changes a partial update of `stored` by `updated` writes. */
  function ChangesFor(repo: Repository, stored: Obj, updated: Obj): Result<OMap<string, ColumnChange>> {
    ScanForChanges(repo.schema, Some(stored), Some(updated), false)
  }

  /** The converted id parameter: a `Long` needs no conversion. */
  lemma IdConvertsPlain(reg: Registry, env: Env, ext: (string, Value) -> Result<Value>, identified: set<string>, id: int)
    ensures ConvertParameterValue(reg, env, ext, identified, VLong(id)) == (Ok(Plain(VLong(id))), reg)
  {
    assert RuntimeClass(VLong(id)) == Ok(TLong);
    assert AutomaticConversion(TLong).None?;
  }

  /** The parameter source of a partial update: the converted id under
      `id`, then every change's converted new value under its parameter.
      Every named parameter the statement uses is bound: `:id` to the id
      (unless a column named `id` changed and rebound it) and each change's
      parameter. */
  function UpdateParams(reg: Registry, env: Env, ext: (string, Value) -> Result<Value>, identified: set<string>,
                        id: int, changes: OMap<string, ColumnChange>): (r: (Result<OMap<string, SqlParam>>, Registry))
    ensures r.0.Ok? ==> HasKey(r.0.value, "id")
    ensures r.0.Ok? ==> forall p :: p in changes ==> HasKey(r.0.value, p.1.parameterName)
    ensures r.0.Ok? && (forall p :: p in changes ==> p.1.parameterName != "id") ==> Get(r.0.value, "id") == Some(Plain(VLong(id)))
  {
    IdConvertsPlain(reg, env, ext, identified, id);
    var idParam := ConvertParameterValue(reg, env, ext, identified, VLong(id));
    var params := [("id", idParam.0.value)];
    assert Get(params, "id") == Some(Plain(VLong(id)));
    var r := BindChanges(changes, params, idParam.1, env, ext, identified);
    assert r.0.Ok? ==> HasKey(r.0.value, "id") by {
      if r.0.Ok? && !(forall p :: p in changes ==> p.1.parameterName != "id") {
        var p :| p in changes && p.1.parameterName == "id";
      }
    }
    r
  }

  /** The parameters of a partial update bind each change's parameter to
      its converted new value, the conversions starting from the registry
      the id's conversion leaves unchanged. */
  lemma UpdateParamsBinds(reg: Registry, env: Env, ext: (string, Value) -> Result<Value>, identified: set<string>,
                          id: int, changes: OMap<string, ColumnChange>, i: int)
    requires 0 <= i < |changes| && forall j :: i < j < |changes| ==> changes[j].1.parameterName != changes[i].1.parameterName
    requires UpdateParams(reg, env, ext, identified, id, changes).0.Ok?
    ensures var converted := ConvertParameterValue(BindChanges(changes[..i], [("id", Plain(VLong(id)))], reg, env, ext, identified).1, env, ext, identified, changes[i].1.newValue);
      converted.0.Ok? && Get(UpdateParams(reg, env, ext, identified, id, changes).0.value, changes[i].1.parameterName) == Some(converted.0.value)
  {
    IdConvertsPlain(reg, env, ext, identified, id);
    assert UpdateParams(reg, env, ext, identified, id, changes) == BindChanges(changes, [("id", Plain(VLong(id)))], reg, env, ext, identified);
    BindChangesBinds(changes, [("id", Plain(VLong(id)))], reg, env, ext, identified, i);
  }

  /** `partialUpdate(updated)`: `updatedId` is `updated.getId()` and
      `stored` the row `findByIdOrException` loads for it (None when no row
      matches). The id parameter is the stored row's id, taken here to be
      the id it was loaded by. The statement sets the changed columns in
      map order on the row of the id column. */
  function PartialUpdate(repo: Repository, reg: Registry, env: Env, ext: (string, Value) -> Result<Value>, identified: set<string>,
                         updatedId: Option<int>, stored: Option<Obj>, updated: Obj): (r: (Result<UpdateOutcome>, Registry))
    ensures updatedId.None? ==> r.0.Err? && r.0.error.IllegalArgument?
    ensures updatedId.Some? && stored.None? ==> r.0 == Err(AccessFailure)
    ensures updatedId.Some? && stored.Some? && ChangesFor(repo, stored.value, updated).Err? ==> r.0 == Err(QueryConstruction)
    ensures r.0.Ok? ==> updatedId.Some? && stored.Some? && ChangesFor(repo, stored.value, updated).Ok?
    ensures r.0.Ok? ==> (r.0.value.Unchanged? <==> |ChangesFor(repo, stored.value, updated).value| == 0)
    ensures r.0.Ok? && r.0.value.Execute? ==>
      var changes := ChangesFor(repo, stored.value, updated).value;
      && UpdateParams(reg, env, ext, identified, updatedId.value, changes).0 == Ok(r.0.value.params)
      && r.0.value.sql == "UPDATE " + repo.statements.tableName + " SET " + Join(", ", Assignments(changes))
        + " WHERE " + NullableText(repo.id.idColumn) + " = :id;"
  {
    if updatedId.None? then (Err(IllegalArgument("Can't update entity without id")), reg)
    else if stored.None? then (Err(AccessFailure), reg)
    else
      match ChangesFor(repo, stored.value, updated)
      case Err(e) => (Err(e), reg)
      case Ok(changes) =>
        var bound := UpdateParams(reg, env, ext, identified, updatedId.value, changes);
        match bound.0
        case Err(e) => (Err(e), bound.1)
        case Ok(ps) =>
          if |changes| == 0 then (Ok(Unchanged), bound.1)
          else
            var sql := "UPDATE " + repo.statements.tableName + " SET " + Join(", ", Assignments(changes))
              + " WHERE " + NullableText(repo.id.idColumn) + " = :id;";
            (Ok(Execute(sql, ps)), bound.1)
  }
}
