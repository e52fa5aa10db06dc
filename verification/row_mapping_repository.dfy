/** The repository's view of an entity class: which property each result
    column fills, which column each property is stored in, the sorted
    column lists of INSERT and UPDATE statements, the change scan behind a
    partial update, and the rule by which the row mapper converts and
    writes each column of a result row. */
module RowMappingRepository {
  import opened Wrappers
  import opened JavaStrings
  import opened JavaTypes
  import opened OrderedMaps
  import opened SortedStrings
  import opened CaseFormat
  import opened Annotations
  import opened CopyBehavior
  import opened ColumnChange
  import Changes = ColumnChange
  import opened PropertyHelper
  import opened ObjectBackedContainer
  import opened Converters

  /** `propertiesByColumn`, `columnsByPropertyName` and the two `TreeSet`s
      of column names. A helper is `None` when an `@Column` annotation is
      reported for a name the container has no helper for, which
      `propertiesByColumn` stores as null. */
  datatype Schema = Schema(
    byColumn: OMap<string, Option<Helper>>,
    columnOf: OMap<string, string>,
    insertList: seq<string>,
    updateList: seq<string>)

  const EMPTY_SCHEMA: Schema := Schema([], [], [], [])

  /** What `scanColumns` keeps true: both lists are sorted sets, every
      updatable column is also insertable, and every listed column is mapped. */
  predicate Valid(s: Schema) {
    && Sorted(s.insertList)
    && Sorted(s.updateList)
    && (forall x :: x in s.updateList ==> x in s.insertList)
    && (forall x :: x in s.insertList ==> HasKey(s.byColumn, x))
  }

  /** A property the first pass maps by convention: not `class`, and with
      neither `@Transient` nor `@Column`. */
  predicate AutoMapped(c: Container, p: string) {
    && Get(c.properties, p).Some?
    && ColumnNameOf(p) != "class"
    && GetAnnotation(Get(c.properties, p).value, TransientType).None?
    && GetAnnotation(Get(c.properties, p).value, ColumnType).None?
  }

  /** `put` into a map whose other keys keep their presence. */
  lemma PutKeeps<K, V>(m: OMap<K, V>, k: K, v: V)
    ensures HasKey(Put(m, k, v), k)
    ensures forall x :: HasKey(m, x) ==> HasKey(Put(m, k, v), x)
  {
    PutGet(m, k, v, k);
    forall x | HasKey(m, x) ensures HasKey(Put(m, k, v), x) {
      PutGet(m, k, v, x);
    }
  }

  /** Maps one property under a column, adding the column to the lists it
      joins. */
  function MapProperty(s: Schema, p: string, h: Option<Helper>, column: string, insertable: bool, updatable: bool): (r: Schema)
    requires Valid(s)
    ensures Valid(r)
    ensures Get(r.columnOf, p) == Some(column)
    ensures forall x :: x in r.insertList <==> x in s.insertList || (insertable && x == column)
    ensures forall x :: x in r.updateList <==> x in s.updateList || (insertable && updatable && x == column)
    ensures forall x :: Get(r.byColumn, x) == if x == column then Some(h) else Get(s.byColumn, x)
    ensures forall q :: Get(r.columnOf, q) == if q == p then Some(column) else Get(s.columnOf, q)
  {
    PutKeeps(s.byColumn, column, h);
    forall x ensures Get(Put(s.byColumn, column, h), x) == if x == column then Some(h) else Get(s.byColumn, x) {
      PutGet(s.byColumn, column, h, x);
    }
    forall q ensures Get(Put(s.columnOf, p, column), q) == if q == p then Some(column) else Get(s.columnOf, q) {
      PutGet(s.columnOf, p, column, q);
    }
    Schema(
      Put(s.byColumn, column, h),
      Put(s.columnOf, p, column),
      if insertable then SortedStrings.Add(s.insertList, column) else s.insertList,
      if insertable && updatable then SortedStrings.Add(s.updateList, column) else s.updateList)
  }

  /** One name of the first pass. */
  function AutoStep(c: Container, s: Schema, p: string): (r: Schema)
    requires Valid(s)
    ensures Valid(r)
    ensures forall x :: x in r.insertList <==> x in s.insertList || (AutoMapped(c, p) && ColumnNameOf(p) == x)
    ensures (forall x :: x in s.updateList <==> x in s.insertList) ==> forall x :: x in r.updateList <==> x in r.insertList
    ensures forall q :: Get(r.columnOf, q) == if q == p && AutoMapped(c, p) then Some(ColumnNameOf(p)) else Get(s.columnOf, q)
    ensures forall x :: Get(r.byColumn, x) == (if AutoMapped(c, p) && x == ColumnNameOf(p) then Some(Get(c.properties, p)) else Get(s.byColumn, x))
  {
    if AutoMapped(c, p) then MapProperty(s, p, Get(c.properties, p), ColumnNameOf(p), true, true) else s
  }

  /** The loop over `getPropertyNames()`: each property mapped by
      convention gets its lower-underscore column in both lists. */
  function AutoPass(c: Container, names: seq<string>): (r: Schema)
    ensures Valid(r)
    ensures forall x :: x in r.insertList <==> exists p :: p in names && AutoMapped(c, p) && ColumnNameOf(p) == x
    ensures forall x :: x in r.updateList <==> x in r.insertList
    decreases |names|
  {
    if |names| == 0 then EMPTY_SCHEMA
    else
      var front := names[..|names| - 1];
      var p := names[|names| - 1];
      var before := AutoPass(c, front);
      var r := AutoStep(c, before, p);
      assert names == front + [p];
      r
  }

  /** The column an `@Column` annotation selects: its name, or the
      conventional column when the name is blank. */
  function ColumnFor(p: string, name: string): (r: string)
    ensures IsBlank(name) ==> r == ColumnNameOf(p)
    ensures !IsBlank(name) ==> r == name
  {
    if |Trim(name)| == 0 then ColumnNameOf(p) else name
  }

  /** The column an annotation entry adds to `insertList`, if any. */
  function InsertColumn(e: (string, Annotation)): Option<string> {
    match e.1
    case Column(name, insertable, _) => if insertable then Some(ColumnFor(e.0, name)) else None
    case _ => None
  }

  /** The column an annotation entry adds to `updateList`, if any. */
  function UpdateColumn(e: (string, Annotation)): Option<string> {
    match e.1
    case Column(name, insertable, updatable) => if insertable && updatable then Some(ColumnFor(e.0, name)) else None
    case _ => None
  }

  /** The column an annotation entry maps its property under, if it is an `@Column`. */
  function EntryColumn(e: (string, Annotation)): Option<string> {
    if e.1.Column? then Some(ColumnFor(e.0, e.1.name)) else None
  }

  /** One entry of the second pass. */
  function ColumnStep(c: Container, s: Schema, e: (string, Annotation)): (r: Schema)
    requires Valid(s)
    ensures Valid(r)
    ensures forall x :: x in r.insertList <==> x in s.insertList || InsertColumn(e) == Some(x)
    ensures forall x :: x in r.updateList <==> x in s.updateList || UpdateColumn(e) == Some(x)
    ensures forall q :: Get(r.columnOf, q) == if q == e.0 && e.1.Column? then EntryColumn(e) else Get(s.columnOf, q)
    ensures forall x :: Get(r.byColumn, x) == if EntryColumn(e) == Some(x) then Some(Get(c.properties, e.0)) else Get(s.byColumn, x)
  {
    match e.1
    case Column(name, insertable, updatable) =>
      MapProperty(s, e.0, Get(c.properties, e.0), ColumnFor(e.0, name), insertable, updatable)
    case _ => s
  }

  /** The loop over `getAnnotations(Column.class, true)`: each annotated
      property is mapped under the column its annotation selects, and the
      column joins `insertList` when insertable and `updateList` when also
      updatable. */
  function ColumnPass(c: Container, base: Schema, anns: OMap<string, Annotation>): (r: Schema)
    requires Valid(base)
    ensures Valid(r)
    ensures forall x :: x in r.insertList <==> x in base.insertList || exists e :: e in anns && InsertColumn(e) == Some(x)
    ensures forall x :: x in r.updateList <==> x in base.updateList || exists e :: e in anns && UpdateColumn(e) == Some(x)
    decreases |anns|
  {
    if |anns| == 0 then base
    else
      var front := anns[..|anns| - 1];
      var e := anns[|anns| - 1];
      var before := ColumnPass(c, base, front);
      assert anns == front + [e];
      ColumnStep(c, before, e)
  }

  /** `scanColumns`: conventional columns for the plain properties, then
      the `@Column` overrides; the annotation lookup fails only as
      `getAnnotations` does. */
  function ScanColumns(c: Container): (r: Result<Schema>)
    ensures r.Ok? <==> AnnotationsOf(c, ColumnType, true).Ok?
    ensures r.Ok? ==> Valid(r.value)
    ensures r.Ok? ==> forall x :: x in r.value.insertList <==>
      || (exists p :: p in PropertyNames(c) && AutoMapped(c, p) && ColumnNameOf(p) == x)
      || (exists e :: e in AnnotationsOf(c, ColumnType, true).value && InsertColumn(e) == Some(x))
    ensures r.Ok? ==> forall x :: x in r.value.updateList <==>
      || (exists p :: p in PropertyNames(c) && AutoMapped(c, p) && ColumnNameOf(p) == x)
      || (exists e :: e in AnnotationsOf(c, ColumnType, true).value && UpdateColumn(e) == Some(x))
  {
    var anns :- AnnotationsOf(c, ColumnType, true);
    Ok(ColumnPass(c, AutoPass(c, PropertyNames(c)), anns))
  }

  /** The column the convention pass maps a name under, if it maps it. */
  function AutoKey(c: Container): string -> Option<string> {
    p => if AutoMapped(c, p) then Some(ColumnNameOf(p)) else None
  }

  /** The helper the convention pass stores for a name. */
  function AutoHelper(c: Container): string -> Option<Option<Helper>> {
    p => Some(Get(c.properties, p))
  }

  /** The property an annotation entry remaps, if it is an `@Column`. */
  function EntryProperty(e: (string, Annotation)): Option<string> {
    if e.1.Column? then Some(e.0) else None
  }

  /** The helper the `@Column` pass stores for an entry. */
  function EntryHelper(c: Container): ((string, Annotation)) -> Option<Option<Helper>> {
    (e: (string, Annotation)) => Some(Get(c.properties, e.0))
  }

  /** The convention pass records, for every property, its conventional
      column exactly when it is auto-mapped, whatever the order of names. */
  lemma {:induction false} AutoPassColumnOf(c: Container, names: seq<string>, q: string)
    ensures Get(AutoPass(c, names).columnOf, q) == if q in names && AutoMapped(c, q) then Some(ColumnNameOf(q)) else None
    decreases |names|
  {
    if |names| > 0 {
      var front := names[..|names| - 1];
      AutoPassColumnOf(c, front, q);
      assert names == front + [names[|names| - 1]];
    }
  }

  /** The convention pass maps a column to the last auto-mapped property
      named onto it, and leaves other columns unmapped. */
  lemma {:induction false} AutoPassByColumn(c: Container, names: seq<string>, x: string)
    ensures LastWins(names, AutoKey(c), AutoHelper(c), x, None, Get(AutoPass(c, names).byColumn, x))
    decreases |names|
  {
    if |names| > 0 {
      var front := names[..|names| - 1];
      AutoPassByColumn(c, front, x);
      LastWinsStep(names, AutoKey(c), AutoHelper(c), x, None, Get(AutoPass(c, front).byColumn, x), Get(AutoPass(c, names).byColumn, x));
    }
  }

  /** The `@Column` pass maps each annotated property under the column of
      its last entry, overriding the convention pass, and leaves every
      other property as the convention pass left it. */
  lemma {:induction false} ColumnPassColumnOf(c: Container, base: Schema, anns: OMap<string, Annotation>, q: string)
    requires Valid(base)
    ensures LastWins(anns, EntryProperty, EntryColumn, q, Get(base.columnOf, q), Get(ColumnPass(c, base, anns).columnOf, q))
    decreases |anns|
  {
    if |anns| > 0 {
      var front := anns[..|anns| - 1];
      ColumnPassColumnOf(c, base, front, q);
      LastWinsStep(anns, EntryProperty, EntryColumn, q, Get(base.columnOf, q), Get(ColumnPass(c, base, front).columnOf, q), Get(ColumnPass(c, base, anns).columnOf, q));
    }
  }

  /** The `@Column` pass maps a column to the property of its last entry,
      whatever the convention pass put there, and leaves other columns alone. */
  lemma {:induction false} ColumnPassByColumn(c: Container, base: Schema, anns: OMap<string, Annotation>, x: string)
    requires Valid(base)
    ensures LastWins(anns, EntryColumn, EntryHelper(c), x, Get(base.byColumn, x), Get(ColumnPass(c, base, anns).byColumn, x))
    decreases |anns|
  {
    if |anns| > 0 {
      var front := anns[..|anns| - 1];
      ColumnPassByColumn(c, base, front, x);
      LastWinsStep(anns, EntryColumn, EntryHelper(c), x, Get(base.byColumn, x), Get(ColumnPass(c, base, front).byColumn, x), Get(ColumnPass(c, base, anns).byColumn, x));
    }
  }

  /** `columnsByPropertyName` after `scanColumns`: an `@Column` property
      under the column its last entry names (even when not insertable),
      otherwise the conventional column of an auto-mapped property, and
      nothing for the rest. */
  lemma ScanColumnsColumnOf(c: Container, q: string)
    requires ScanColumns(c).Ok?
    ensures var anns := AnnotationsOf(c, ColumnType, true).value;
      forall i :: LastKeyed(anns, EntryProperty, q, i) ==> Get(ScanColumns(c).value.columnOf, q) == Some(ColumnFor(q, anns[i].1.name))
    ensures var anns := AnnotationsOf(c, ColumnType, true).value;
      (forall i :: 0 <= i < |anns| ==> EntryProperty(anns[i]) != Some(q)) ==>
        Get(ScanColumns(c).value.columnOf, q) == if q in PropertyNames(c) && AutoMapped(c, q) then Some(ColumnNameOf(q)) else None
  {
    var anns := AnnotationsOf(c, ColumnType, true).value;
    var auto := AutoPass(c, PropertyNames(c));
    assert ScanColumns(c).value == ColumnPass(c, auto, anns);
    AutoPassColumnOf(c, PropertyNames(c), q);
    ColumnPassColumnOf(c, auto, anns, q);
    forall i | LastKeyed(anns, EntryProperty, q, i)
      ensures Get(ScanColumns(c).value.columnOf, q) == Some(ColumnFor(q, anns[i].1.name))
    {
      assert anns[i].0 == q;
    }
  }

  /** `propertiesByColumn` after `scanColumns`: a column named by an
      `@Column` entry holds the helper of its last such entry; any other
      column holds the helper of the last auto-mapped property named onto
      it, or nothing. */
  lemma ScanColumnsByColumn(c: Container, x: string)
    requires ScanColumns(c).Ok?
    ensures var anns := AnnotationsOf(c, ColumnType, true).value;
      forall i :: LastKeyed(anns, EntryColumn, x, i) ==> Get(ScanColumns(c).value.byColumn, x) == Some(Get(c.properties, anns[i].0))
    ensures var anns := AnnotationsOf(c, ColumnType, true).value;
      (forall i :: 0 <= i < |anns| ==> EntryColumn(anns[i]) != Some(x)) ==>
        forall i :: LastKeyed(PropertyNames(c), AutoKey(c), x, i) ==> Get(ScanColumns(c).value.byColumn, x) == Some(Get(c.properties, PropertyNames(c)[i]))
    ensures var anns := AnnotationsOf(c, ColumnType, true).value;
      (forall i :: 0 <= i < |anns| ==> EntryColumn(anns[i]) != Some(x)) &&
      (forall p :: p in PropertyNames(c) ==> AutoKey(c)(p) != Some(x)) ==>
        Get(ScanColumns(c).value.byColumn, x) == None
  {
    var anns := AnnotationsOf(c, ColumnType, true).value;
    AutoPassByColumn(c, PropertyNames(c), x);
    ColumnPassByColumn(c, AutoPass(c, PropertyNames(c)), anns, x);
  }



  /** Whether `@Column(updatable = false)` keeps the property out of the
      change scan; the scan reads the annotation, not `updateList`. */
  predicate NotUpdatable(h: Helper) {
    GetAnnotation(h, ColumnType).Some? && GetAnnotation(h, ColumnType).value.Column?
    && !GetAnnotation(h, ColumnType).value.updatable
  }

  /** The change one column contributes under a copy behaviour, given the
      stored and the updated value, as the `switch` in `scanForChanges`
      decides it. */
  function Decide(b: Behavior, column: string, stored: Value, updated: Value, deleteOverride: bool): (r: Option<ColumnChange>)
    ensures r.Some? ==> WellFormed(r.value) && r.value.columnName == column && r.value.oldValue == stored
    ensures r.Some? ==> r.value.oldValue != r.value.newValue
    ensures r.Some? ==> (r.value.changeType == A <==> stored.VNull?) && (r.value.changeType == D <==> r.value.newValue.VNull?)
  {
    match b
    case Ignore => None
    case TakeOriginal => None
    case TakeUpdated =>
      if stored == updated then None
      else if updated.VNull? then Some(Delete(column, stored))
      else if stored.VNull? then Some(Changes.Add(column, updated))
      else Some(Update(column, stored, updated))
    case MostRecentNonNull =>
      if !updated.VNull? then
        if stored == updated then None
        else if stored.VNull? then Some(Changes.Add(column, updated))
        else Some(Update(column, stored, updated))
      else if !stored.VNull? && deleteOverride then Some(Delete(column, stored))
      else None
    case AlwaysNull =>
      if !stored.VNull? then Some(Delete(column, stored)) else None
  }

  /** A property's value in an entity, null when the entity is null; a
      failed read is reported as the scan's QueryConstructionException. */
  function ReadOrNull(h: Helper, o: Option<Obj>): (r: Result<Value>)
    ensures o.None? ==> r == Ok(VNull)
    ensures o.Some? ==> (r.Ok? <==> GetValue(h, o.value).Ok?)
    ensures o.Some? && r.Ok? ==> r.value == GetValue(h, o.value).value
    ensures r.Err? ==> r.error == QueryConstruction
  {
    match o
    case None => Ok(VNull)
    case Some(x) => GetValue(h, x).MapError(QueryConstruction)
  }

  /** One entry of `propertiesByColumn` in the scan: the property name and
      the change it records, if any. */
  function EntryChange(column: string, oh: Option<Helper>, existing: Option<Obj>, updated: Option<Obj>, deleteOverride: bool): (r: Result<Option<(string, ColumnChange)>>)
    ensures r.Err? ==> r.error == QueryConstruction
    ensures oh.None? ==> r.Err?
    ensures oh.Some? && NotUpdatable(oh.value) ==> r == Ok(None)
    ensures r.Ok? && r.value.Some? ==>
      && oh.Some? && !NotUpdatable(oh.value)
      && GetName(oh.value) == Ok(r.value.value.0)
      && ReadOrNull(oh.value, existing).Ok? && ReadOrNull(oh.value, updated).Ok?
      && Decide(BehaviorOf(oh.value), column, ReadOrNull(oh.value, existing).value, ReadOrNull(oh.value, updated).value, deleteOverride) == Some(r.value.value.1)
  {
    match oh
    case None => Err(QueryConstruction)
    case Some(h) =>
      if NotUpdatable(h) then Ok(None)
      else
        var stored :- ReadOrNull(h, existing);
        var newer :- ReadOrNull(h, updated);
        var name :- GetName(h).MapError(QueryConstruction);
        match Decide(BehaviorOf(h), column, stored, newer, deleteOverride)
        case None => Ok(None)
        case Some(change) => Ok(Some((name, change)))
  }

  /** The `forEach` over `propertiesByColumn` into a `TreeMap` keyed by
      property name: a later entry with the same name replaces an earlier
      one, and the first failing entry aborts the scan. */
  function Scan(entries: OMap<string, Option<Helper>>, existing: Option<Obj>, updated: Option<Obj>, deleteOverride: bool): (r: Result<OMap<string, ColumnChange>>)
    ensures r.Ok? ==> SortedKeys(r.value)
    ensures r.Err? ==> r.error == QueryConstruction
    ensures r.Err? <==> exists e :: e in entries && EntryChange(e.0, e.1, existing, updated, deleteOverride).Err?
    ensures r.Ok? ==> forall p :: p in r.value ==> exists e :: e in entries && EntryChange(e.0, e.1, existing, updated, deleteOverride) == Ok(Some(p))
    ensures r.Ok? ==> forall e :: e in entries && EntryChange(e.0, e.1, existing, updated, deleteOverride).Ok? && EntryChange(e.0, e.1, existing, updated, deleteOverride).value.Some? ==>
      HasKey(r.value, EntryChange(e.0, e.1, existing, updated, deleteOverride).value.value.0)
    decreases |entries|
  {
    if |entries| == 0 then Ok([])
    else
      var front := entries[..|entries| - 1];
      var last := entries[|entries| - 1];
      assert entries == front + [last];
      var acc :- Scan(front, existing, updated, deleteOverride);
      var found :- EntryChange(last.0, last.1, existing, updated, deleteOverride);
      match found
      case None => Ok(acc)
      case Some(p) =>
        TreePutKeeps(acc, p.0, p.1);
        Ok(TreePut(acc, p.0, p.1))
  }

  /** `put` into a `TreeMap` keeps every other key present. */
  lemma TreePutKeeps<V(!new)>(m: OMap<string, V>, k: string, v: V)
    requires SortedKeys(m)
    ensures HasKey(TreePut(m, k, v), k)
    ensures forall x :: HasKey(m, x) ==> HasKey(TreePut(m, k, v), x)
  {
    TreePutGet(m, k, v, k);
    forall x | HasKey(m, x) ensures HasKey(TreePut(m, k, v), x) {
      TreePutGet(m, k, v, x);
    }
  }

  /** `scanForChanges(existing, updated, deleteOverride)`. */
  function ScanForChanges(s: Schema, existing: Option<Obj>, updated: Option<Obj>, deleteOverride: bool): (r: Result<OMap<string, ColumnChange>>)
    ensures r.Ok? ==> SortedKeys(r.value)
    ensures r.Ok? ==> forall p :: p in r.value ==> WellFormed(p.1) && HasKey(s.byColumn, p.1.columnName)
  {
    var r := Scan(s.byColumn, existing, updated, deleteOverride);
    assert r.Ok? ==> forall p :: p in r.value ==> WellFormed(p.1) && HasKey(s.byColumn, p.1.columnName) by {
      if r.Ok? {
        forall p | p in r.value ensures WellFormed(p.1) && HasKey(s.byColumn, p.1.columnName) {
          var e :| e in s.byColumn && EntryChange(e.0, e.1, existing, updated, deleteOverride) == Ok(Some(p));
          var i :| 0 <= i < |s.byColumn| && s.byColumn[i] == e;
          assert Keys(s.byColumn)[i] == e.0;
          HasKeyIff(s.byColumn, e.0);
        }
      }
    }
    r
  }

  /** Some entry maps `column` to a TAKE_UPDATED or ALWAYS_NULL property,
      the behaviours that delete without the override. */
  predicate DeletesUnforced(s: Schema, column: string) {
    exists i :: 0 <= i < |s.byColumn| && s.byColumn[i].0 == column && s.byColumn[i].1.Some? &&
      (BehaviorOf(s.byColumn[i].1.value) == TakeUpdated || BehaviorOf(s.byColumn[i].1.value) == AlwaysNull)
  }

  /** A delete one entry records without the override is its own column's,
      and that column takes the updated value or is always nulled. */
  lemma EntryDeleteUnforced(column: string, oh: Option<Helper>, existing: Option<Obj>, updated: Option<Obj>, p: (string, ColumnChange))
    requires EntryChange(column, oh, existing, updated, false) == Ok(Some(p)) && p.1.changeType == D
    ensures oh.Some? && p.1.columnName == column
    ensures BehaviorOf(oh.value) == TakeUpdated || BehaviorOf(oh.value) == AlwaysNull
  {
  }

  /** The two-argument `scanForChanges`, which never forces deletes: every
      delete it records comes from a TAKE_UPDATED or ALWAYS_NULL column, so
      a MOST_RECENT_NON_NULL column set to null is left alone. */
  function ScanForChangesNoOverride(s: Schema, existing: Option<Obj>, updated: Option<Obj>): (r: Result<OMap<string, ColumnChange>>)
    ensures r == ScanForChanges(s, existing, updated, false)
    ensures r.Ok? ==> forall p :: p in r.value && p.1.changeType == D ==> DeletesUnforced(s, p.1.columnName)
  {
    NoOverrideDeletesUnforced(s, existing, updated);
    ScanForChanges(s, existing, updated, false)
  }

  /** The scan without the override deletes only in TAKE_UPDATED and
      ALWAYS_NULL columns. */
  lemma NoOverrideDeletesUnforced(s: Schema, existing: Option<Obj>, updated: Option<Obj>)
    ensures var r := ScanForChanges(s, existing, updated, false);
      r.Ok? ==> forall p :: p in r.value && p.1.changeType == D ==> DeletesUnforced(s, p.1.columnName)
  {
    var r := Scan(s.byColumn, existing, updated, false);
    assert r == ScanForChanges(s, existing, updated, false);
    if r.Ok? {
      forall p | p in r.value && p.1.changeType == D
        ensures DeletesUnforced(s, p.1.columnName)
      {
        ScannedDeleteUnforced(s, existing, updated, p);
      }
    }
  }

  /** A delete some entry of the schema records without the override is in
      a TAKE_UPDATED or ALWAYS_NULL column. */
  lemma ScannedDeleteUnforced(s: Schema, existing: Option<Obj>, updated: Option<Obj>, p: (string, ColumnChange))
    requires exists e :: e in s.byColumn && EntryChange(e.0, e.1, existing, updated, false) == Ok(Some(p))
    requires p.1.changeType == D
    ensures DeletesUnforced(s, p.1.columnName)
  {
    var e :| e in s.byColumn && EntryChange(e.0, e.1, existing, updated, false) == Ok(Some(p));
    EntryDeleteUnforced(e.0, e.1, existing, updated, p);
    var i :| 0 <= i < |s.byColumn| && s.byColumn[i] == e;
  }

  /** IGNORE and TAKE_ORIGINAL columns never produce a change. */
  lemma NeverChanged(b: Behavior, column: string, stored: Value, updated: Value, deleteOverride: bool)
    requires b == Ignore || b == TakeOriginal
    ensures Decide(b, column, stored, updated, deleteOverride).None?
  {
  }

  /** TAKE_UPDATED records a change exactly when the values differ: a
      delete when the update is null, else an add when the stored value is
      null, else an update. */
  lemma TakeUpdatedChanges(column: string, stored: Value, updated: Value, deleteOverride: bool)
    ensures Decide(TakeUpdated, column, stored, updated, deleteOverride).Some? <==> stored != updated
    ensures stored != updated && updated.VNull? ==> Decide(TakeUpdated, column, stored, updated, deleteOverride) == Some(Delete(column, stored))
    ensures stored != updated && !updated.VNull? && stored.VNull? ==> Decide(TakeUpdated, column, stored, updated, deleteOverride) == Some(Changes.Add(column, updated))
    ensures stored != updated && !updated.VNull? && !stored.VNull? ==> Decide(TakeUpdated, column, stored, updated, deleteOverride) == Some(Update(column, stored, updated))
  {
  }

  /** MOST_RECENT_NON_NULL without the override: an add exactly when a null
      column receives a value, an update exactly when a value is replaced by
      a different one, and nothing when the update is null or equal. */
  lemma MostRecentChanges(column: string, stored: Value, updated: Value)
    ensures var r := Decide(MostRecentNonNull, column, stored, updated, false);
      && (r.None? <==> updated.VNull? || stored == updated)
      && (r.Some? && r.value.changeType == A <==> stored.VNull? && !updated.VNull?)
      && (r.Some? && r.value.changeType == U <==> !stored.VNull? && !updated.VNull? && stored != updated)
      && (r.Some? ==> r.value.newValue == updated)
  {
  }

  /** With the override, MOST_RECENT_NON_NULL turns a value-to-null
      transition into exactly one delete carrying the stored value; null to
      null is still no change, and a non-null update is unaffected. */
  lemma DeleteOverride(column: string, stored: Value, updated: Value)
    ensures updated.VNull? && !stored.VNull? ==> Decide(MostRecentNonNull, column, stored, updated, true) == Some(Delete(column, stored))
    ensures updated.VNull? && stored.VNull? ==> Decide(MostRecentNonNull, column, stored, updated, true).None?
    ensures !updated.VNull? ==> Decide(MostRecentNonNull, column, stored, updated, true) == Decide(MostRecentNonNull, column, stored, updated, false)
  {
  }

  /** ALWAYS_NULL deletes exactly the populated columns, whatever the update. */
  lemma AlwaysNullChanges(column: string, stored: Value, updated: Value, deleteOverride: bool)
    ensures Decide(AlwaysNull, column, stored, updated, deleteOverride) == if stored.VNull? then None else Some(Delete(column, stored))
  {
  }

  /** Without the override, the change scan and the entity merge agree: a
      column changes exactly when the merged value differs from the stored
      one, and the change writes the merged value. */
  lemma DecideAgreesWithMerge(b: Behavior, column: string, stored: Value, updated: Value)
    ensures Decide(b, column, stored, updated, false).None? <==> Merged(b, stored, updated).None? || Merged(b, stored, updated) == Some(stored)
    ensures Decide(b, column, stored, updated, false).Some? ==> Decide(b, column, stored, updated, false).value.newValue == Merged(b, stored, updated).value
  {
  }

  /** Comparing a value with itself changes only a populated ALWAYS_NULL
      column. */
  lemma DecideSame(b: Behavior, column: string, v: Value, deleteOverride: bool)
    ensures Decide(b, column, v, v, deleteOverride).None? <==> !(b == AlwaysNull && !v.VNull?)
  {
  }

  /** With no updated entity every recorded change is a delete; without the
      override only TAKE_UPDATED and ALWAYS_NULL columns record one. */
  lemma DecideNullUpdate(b: Behavior, column: string, stored: Value, deleteOverride: bool)
    ensures var r := Decide(b, column, stored, VNull, deleteOverride);
      && (r.Some? ==> r.value == Delete(column, stored))
      && (r.Some? <==> !stored.VNull? && (b == TakeUpdated || b == AlwaysNull || (b == MostRecentNonNull && deleteOverride)))
  {
  }

  lemma EmptyWithoutMembers<T>(q: seq<T>)
    ensures (forall x :: x !in q) ==> q == []
  {
    if |q| > 0 {
      assert q[0] in q;
    }
  }

  /** Scanning an entity against itself records nothing exactly when every
      entry reads cleanly and no updatable ALWAYS_NULL property of it is
      populated. */
  lemma {:induction false} ScanSelf(s: Schema, x: Obj, deleteOverride: bool)
    ensures ScanForChanges(s, Some(x), Some(x), deleteOverride) == Ok([]) <==>
      forall e :: e in s.byColumn ==> EntryChange(e.0, e.1, Some(x), Some(x), deleteOverride) == Ok(None)
    ensures forall e :: e in s.byColumn && e.1.Some? && !NotUpdatable(e.1.value) && GetValue(e.1.value, x).Ok? && GetName(e.1.value).Ok? ==>
      (EntryChange(e.0, e.1, Some(x), Some(x), deleteOverride) == Ok(None) <==>
        !(BehaviorOf(e.1.value) == AlwaysNull && !GetValue(e.1.value, x).value.VNull?))
  {
    var r := ScanForChanges(s, Some(x), Some(x), deleteOverride);
    if forall e :: e in s.byColumn ==> EntryChange(e.0, e.1, Some(x), Some(x), deleteOverride) == Ok(None) {
      assert r.Ok?;
      EmptyWithoutMembers(r.value);
    }
    if r == Ok([]) {
      forall e | e in s.byColumn ensures EntryChange(e.0, e.1, Some(x), Some(x), deleteOverride) == Ok(None) {
        var ch := EntryChange(e.0, e.1, Some(x), Some(x), deleteOverride);
        if ch.Ok? && ch.value.Some? {
          assert HasKey(r.value, ch.value.value.0);
        }
      }
    }
    forall e | e in s.byColumn && e.1.Some? && !NotUpdatable(e.1.value) && GetValue(e.1.value, x).Ok? && GetName(e.1.value).Ok?
      ensures EntryChange(e.0, e.1, Some(x), Some(x), deleteOverride) == Ok(None) <==>
        !(BehaviorOf(e.1.value) == AlwaysNull && !GetValue(e.1.value, x).value.VNull?)
    {
      DecideSame(BehaviorOf(e.1.value), e.0, GetValue(e.1.value, x).value, deleteOverride);
    }
  }

  /** Scanning against a null updated entity records only deletes. */
  lemma ScanNullUpdated(s: Schema, existing: Option<Obj>, deleteOverride: bool)
    ensures var r := ScanForChanges(s, existing, None, deleteOverride);
      r.Ok? ==> forall p :: p in r.value ==> p.1.changeType == D && p.1.newValue.VNull?
  {
    var r := ScanForChanges(s, existing, None, deleteOverride);
    if r.Ok? {
      forall p | p in r.value ensures p.1.changeType == D && p.1.newValue.VNull? {
        var e :| e in s.byColumn && EntryChange(e.0, e.1, existing, None, deleteOverride) == Ok(Some(p));
        DecideNullUpdate(BehaviorOf(e.1.value), e.0, ReadOrNull(e.1.value, existing).value, deleteOverride);
      }
    }
  }

  /** Every recorded change comes from an updatable entry, is keyed by that
      entry's property name and carries that entry's column. */
  lemma ScanSources(s: Schema, existing: Option<Obj>, updated: Option<Obj>, deleteOverride: bool)
    ensures var r := ScanForChanges(s, existing, updated, deleteOverride);
      r.Ok? ==> forall p :: p in r.value ==>
        (exists e :: e in s.byColumn && e.1.Some? && !NotUpdatable(e.1.value) && GetName(e.1.value) == Ok(p.0) && p.1.columnName == e.0)
  {
    var r := ScanForChanges(s, existing, updated, deleteOverride);
    if r.Ok? {
      forall p | p in r.value
        ensures exists e :: e in s.byColumn && e.1.Some? && !NotUpdatable(e.1.value) && GetName(e.1.value) == Ok(p.0) && p.1.columnName == e.0
      {
        var e :| e in s.byColumn && EntryChange(e.0, e.1, existing, updated, deleteOverride) == Ok(Some(p));
      }
    }
  }

  /** `propertiesByColumn.get(column)`: the helper mapped to the column, or
      null both for an unmapped column and for one stored as null. */
  function HelperAt(s: Schema, column: string): (r: Option<Helper>)
    ensures r.Some? ==> Get(s.byColumn, column) == Some(r)
    ensures r.None? ==> Get(s.byColumn, column).None? || Get(s.byColumn, column) == Some(None)
  {
    var found := Get(s.byColumn, column);
    if found.Some? then found.value else None
  }

  /** A property the row mapper treats as an enum: `Enum` is assignable
      from its type. */
  predicate IsEnumProperty(h: Helper) {
    Assignable(h.ptype, TEnumBase)
  }

  /** The enum class a converter for the property targets. */
  function EnumNameOf(t: JType): string {
    if t.TEnum? then t.enumName else "java.lang.Enum"
  }

  /** The enum converters by the class the column reports: a `String`
      column holds the name, an `Integer` or `Long` column the id, and an
      `Object` column (a driver's own object) a value whose text is the
      name; any other column class has none. */
  function EnumConverter(enumName: string, columnClass: JType): (r: Option<Converter>)
    ensures r.Some? <==> columnClass in {TString, TInteger, TLong, TObject}
    ensures columnClass == TString ==> r == Some(StringToEnum(enumName))
    ensures columnClass == TInteger ==> r == Some(IntegerIdToEnum(enumName))
    ensures columnClass == TLong ==> r == Some(LongIdToEnum(enumName))
    ensures columnClass == TObject ==> r == Some(ObjectToStringToEnum(enumName))
  {
    match columnClass
    case TString => Some(StringToEnum(enumName))
    case TInteger => Some(IntegerIdToEnum(enumName))
    case TLong => Some(LongIdToEnum(enumName))
    case TObject => Some(ObjectToStringToEnum(enumName))
    case _ => None
  }

  /** Whether `selectConverter` throws for the column: only an enum
      property read from a column of a class no enum converter takes. */
  predicate SelectionFails(s: Schema, column: string, columnClass: JType) {
    HelperAt(s, column).Some? && IsEnumProperty(HelperAt(s, column).value) && EnumConverter(EnumNameOf(HelperAt(s, column).value.ptype), columnClass).None?
  }

  /** `selectConverter(columnClassName, columnName)`, with the registry as
      the lookup leaves it: an unmapped column discards its values, an enum
      property gets the enum converter for the column's class, and any
      other property whatever `getConverter` finds, else the identity. */
  function SelectConverter(s: Schema, reg: Registry, columnClass: JType, column: string): (r: (Result<Converter>, Registry))
    ensures HelperAt(s, column).None? ==> r == (Ok(Discard), reg)
    ensures r.0.Err? <==> SelectionFails(s, column, columnClass)
    ensures r.0.Err? ==> r.0.error.Runtime?
    ensures HelperAt(s, column).Some? && IsEnumProperty(HelperAt(s, column).value) ==>
      r.1 == reg && (r.0.Ok? ==> Some(r.0.value) == EnumConverter(EnumNameOf(HelperAt(s, column).value.ptype), columnClass))
    ensures HelperAt(s, column).Some? && !IsEnumProperty(HelperAt(s, column).value) ==>
      var found := GetConverter(reg, columnClass, HelperAt(s, column).value.ptype);
      && r.1 == found.1
      && (found.0.Some? ==> r.0 == Ok(found.0.value))
      && (found.0.None? ==> r.0 == Ok(Identity))
  {
    match HelperAt(s, column)
    case None => (Ok(Discard), reg)
    case Some(h) =>
      if IsEnumProperty(h) then
        match EnumConverter(EnumNameOf(h.ptype), columnClass)
        case Some(c) => (Ok(c), reg)
        case None => (Err(Runtime("Unable to convert enum column " + column)), reg)
      else
        var found := GetConverter(reg, columnClass, h.ptype);
        (Ok(found.0.GetOr(Identity)), found.1)
  }

  /** Selecting again with the registry the first selection left gives the
      same converter and the same registry. */
  lemma SelectConverterMemo(s: Schema, reg: Registry, columnClass: JType, column: string)
    ensures var first := SelectConverter(s, reg, columnClass, column);
      SelectConverter(s, first.1, columnClass, column) == first
  {
    var h := HelperAt(s, column);
    if h.Some? && !IsEnumProperty(h.value) {
      GetConverterMemo(reg, columnClass, h.value.ptype);
    }
  }

  /** Whatever an enum property's converter produces from a column value is
      a constant of the property's own enum class. */
  lemma EnumConverterGivesConstant(s: Schema, reg: Registry, columnClass: JType, column: string, env: Env, ext: (string, Value) -> Result<Value>, v: Value)
    requires HelperAt(s, column).Some? && IsEnumProperty(HelperAt(s, column).value)
    ensures var c := SelectConverter(s, reg, columnClass, column).0;
      c.Ok? && Apply(env, ext, c.value, v).Ok? ==>
        var r := Apply(env, ext, c.value, v).value;
        r.VEnum? && r.enumName == EnumNameOf(HelperAt(s, column).value.ptype) && InstanceOf(r, HelperAt(s, column).value.ptype)
  {
    var t := HelperAt(s, column).value.ptype;
    var c := SelectConverter(s, reg, columnClass, column).0;
    if c.Ok? && Apply(env, ext, c.value, v).Ok? {
      EnumConverterApplied(env, ext, EnumNameOf(t), columnClass, v);
      EnumAssignable(t);
    }
  }

  lemma EnumConverterApplied(env: Env, ext: (string, Value) -> Result<Value>, e: string, columnClass: JType, v: Value)
    requires EnumConverter(e, columnClass).Some?
    ensures var r := Apply(env, ext, EnumConverter(e, columnClass).value, v);
      r.Ok? ==> r.value.VEnum? && r.value.enumName == e && RuntimeClass(r.value) == Ok(TEnum(e))
  {
  }

  /** A type `Enum` is assignable from is an enum class or `Enum` itself, and
      its enum constants are instances of it. */
  lemma EnumAssignable(t: JType)
    requires Assignable(t, TEnumBase)
    ensures Assignable(TEnum(EnumNameOf(t)), t)
  {
    if !t.TEnum? {
      assert Super(t).Some?;
      AssignableDepth(t, TEnumBase);
    }
  }

  /** One column of a result row: its name, the class the driver reports
      for it, and the value `getObject` returns for it. */
  datatype Column = Column(name: string, columnClass: JType, value: Value)

  /** What the row mapper remembers between rows: the converter map, built
      from the columns of the first row it sees, and the converter registry
      lookups memoise into. */
  datatype Mapper = Mapper(converters: Option<OMap<string, Converter>>, registry: Registry)

  /** `buildInitialConverterMap`: a converter per column in column order;
      the first selection that throws ends the build, and the map keeps the
      entries made before it. */
  function BuildConverters(s: Schema, reg: Registry, cols: seq<Column>): (r: (Option<Exception>, OMap<string, Converter>, Registry))
    ensures r.0.None? <==> forall c :: c in cols ==> !SelectionFails(s, c.name, c.columnClass)
    ensures r.0.Some? ==> r.0.value.Runtime?
    ensures r.0.None? ==> forall c :: c in cols ==> Get(r.1, c.name).Some?
    ensures forall k :: Get(r.1, k).Some? ==> exists c :: c in cols && c.name == k
    ensures forall k :: Get(r.1, k).Some? && HelperAt(s, k).None? ==> Get(r.1, k) == Some(Discard)
    decreases |cols|
  {
    if |cols| == 0 then (None, [], reg)
    else
      var front := cols[..|cols| - 1];
      var last := cols[|cols| - 1];
      assert cols == front + [last];
      var built := BuildConverters(s, reg, front);
      if built.0.Some? then built
      else
        var selected := SelectConverter(s, built.2, last.columnClass, last.name);
        match selected.0
        case Err(e) => (Some(e), built.1, selected.1)
        case Ok(c) =>
          var m := Put(built.1, last.name, c);
          assert forall k :: Get(m, k) == if k == last.name then Some(c) else Get(built.1, k) by {
            forall k ensures Get(m, k) == if k == last.name then Some(c) else Get(built.1, k) {
              PutGet(built.1, last.name, c, k);
            }
          }
          (None, m, selected.1)
  }

  /** The converter a successful build stores for a column no later column
      shares a name with is the one `selectConverter` picked for it,
      against the registry the earlier selections left. */
  lemma {:induction false} BuildConvertersSelects(s: Schema, reg: Registry, cols: seq<Column>, i: int)
    requires 0 <= i < |cols| && forall j :: i < j < |cols| ==> cols[j].name != cols[i].name
    requires BuildConverters(s, reg, cols).0.None?
    ensures var selected := SelectConverter(s, BuildConverters(s, reg, cols[..i]).2, cols[i].columnClass, cols[i].name);
      selected.0.Ok? && Get(BuildConverters(s, reg, cols).1, cols[i].name) == Some(selected.0.value)
    decreases |cols|
  {
    var front := cols[..|cols| - 1];
    var last := cols[|cols| - 1];
    var built := BuildConverters(s, reg, front);
    assert built.0.None?;
    var selected := SelectConverter(s, built.2, last.columnClass, last.name);
    assert selected.0.Ok?;
    assert BuildConverters(s, reg, cols).1 == Put(built.1, last.name, selected.0.value);
    PutGet(built.1, last.name, selected.0.value, cols[i].name);
    if i == |cols| - 1 {
      assert front == cols[..i];
    } else {
      assert front[..i] == cols[..i];
      assert forall j :: i < j < |front| ==> front[j] == cols[j];
      BuildConvertersSelects(s, reg, front, i);
    }
  }

  /** What the row mapper does with a column no property is mapped to: the
      code as written dereferences the missing helper and throws
      NullPointerException; the evident intent, visible in the discarding
      converter and the `PropertyContainer` branch, is to pass over it. */
  datatype Unmapped = ThrowNull | Skip

  /** A column the mapper writes into the entity: mapped, with a value. */
  predicate Written(s: Schema, c: Column) {
    HelperAt(s, c.name).Some? && !c.value.VNull?
  }

  /** The converter for a column: the one in the map, else a fresh
      selection, which the map does not remember. */
  function ConverterFor(s: Schema, convs: OMap<string, Converter>, reg: Registry, c: Column): (r: (Result<Converter>, Registry))
    ensures Get(convs, c.name).Some? ==> r == (Ok(Get(convs, c.name).value), reg)
    ensures Get(convs, c.name).None? ==> r == SelectConverter(s, reg, c.columnClass, c.name)
  {
    match Get(convs, c.name)
    case Some(conv) => (Ok(conv), reg)
    case None => SelectConverter(s, reg, c.columnClass, c.name)
  }

  /** A failed `setValue` of the converted value `v` as the row mapper
      reports it: an argument the property refuses is wrapped where it is
      caught, whose message asks the value for its class and so itself
      fails with a NullPointerException when the refused value is null;
      an inaccessible field is wrapped by the outer handler. */
  function SetFailure(e: Exception, v: Value): (r: Exception)
    ensures r == NullPointer <==> e.IllegalArgument? && v.VNull?
    ensures r != NullPointer ==> r.Runtime?
  {
    if e.IllegalArgument? then
      if v.VNull? then NullPointer else Runtime("Error setting member value")
    else Runtime("Error instantiating")
  }

  /** The outcome of writing the converted value `v` into the property:
      it succeeds exactly when `setValue` does, a failure is reported as the
      row mapper reports it, and on success the property's slot holds `v`
      as the property stores it. */
  predicate WritesConverted(h: Helper, o: Obj, v: Value, res: Result<Obj>) {
    && (res.Ok? <==> SetValue(h, o, v).Ok?)
    && (res.Err? && SetValue(h, o, v).Err? ==> res.error == SetFailure(SetValue(h, o, v).error, v))
    && (res.Ok? && WriteSlot(h).Some? ==> Slot(res.value, WriteSlot(h).value, TObject) == Stored(h, v))
  }

  /** The loop body for one column. */
  function MapColumn(unmapped: Unmapped, s: Schema, env: Env, ext: (string, Value) -> Result<Value>, convs: OMap<string, Converter>, reg: Registry, c: Column, o: Obj): (r: (Result<Obj>, Registry))
    ensures HelperAt(s, c.name).None? ==> r == (if unmapped == ThrowNull then Err(NullPointer) else Ok(o), reg)
    ensures HelperAt(s, c.name).Some? && c.value.VNull? ==> r == (Ok(o), reg)
    ensures r.0.Ok? ==> r.0.value.klass == o.klass
    ensures r.0.Ok? ==> forall key :: (Written(s, c) ==> Some(key) != WriteSlot(HelperAt(s, c.name).value)) ==>
      Slot(r.0.value, key, TObject) == Slot(o, key, TObject)
    ensures Written(s, c) ==>
      var conv := ConverterFor(s, convs, reg, c);
      && r.1 == conv.1
      && (conv.0.Err? ==> r.0 == Err(conv.0.error))
      && (conv.0.Ok? && Apply(env, ext, conv.0.value, c.value).Err? ==> r.0 == Err(Apply(env, ext, conv.0.value, c.value).error))
      && (conv.0.Ok? && Apply(env, ext, conv.0.value, c.value).Ok? ==>
            WritesConverted(HelperAt(s, c.name).value, o, Apply(env, ext, conv.0.value, c.value).value, r.0))
  {
    match HelperAt(s, c.name)
    case None => (if unmapped == ThrowNull then Err(NullPointer) else Ok(o), reg)
    case Some(h) =>
      if c.value.VNull? then (Ok(o), reg)
      else
        var conv := ConverterFor(s, convs, reg, c);
        match conv.0
        case Err(e) => (Err(e), conv.1)
        case Ok(f) =>
          match Apply(env, ext, f, c.value)
          case Err(e) => (Err(e), conv.1)
          case Ok(v) =>
            SetValueFrame(h, o, v);
            match SetValue(h, o, v)
            case Ok(written) => (Ok(written), conv.1)
            case Err(e) => (Err(SetFailure(e, v)), conv.1)
  }

  /** A blank text column for a `long` setter: `StringToLong` turns it
      into null, the setter refuses null for its primitive parameter, and
      building the error message throws NullPointerException instead of the
      wrapped RuntimeException. */
  lemma BlankIntoPrimitiveLong(unmapped: Unmapped, s: Schema, env: Env, ext: (string, Value) -> Result<Value>, convs: OMap<string, Converter>, reg: Registry, c: Column, o: Obj, m: MethodDecl)
    requires HelperAt(s, c.name).Some? && HelperAt(s, c.name).value.setter == Some(m)
    requires m.declaringClass in ChainNames(o.klass) && m.params == [TPrimitive(PLong)]
    requires c.value.VString? && IsBlank(c.value.s)
    requires ConverterFor(s, convs, reg, c).0 == Ok(StringToLong)
    ensures MapColumn(unmapped, s, env, ext, convs, reg, c, o).0 == Err(NullPointer)
  {
    ApplyParsesLong(env, ext, c.value);
    StringToLongBlanks(c.value.s, 0);
    assert Apply(env, ext, StringToLong, c.value) == Ok(VNull);
    assert InvokeSetter(m, o, VNull).Err?;
  }

  /** The loop over a row's columns, in order; the first failing column
      ends it. */
  function MapColumns(unmapped: Unmapped, s: Schema, env: Env, ext: (string, Value) -> Result<Value>, convs: OMap<string, Converter>, reg: Registry, cols: seq<Column>, o: Obj): (r: (Result<Obj>, Registry))
    ensures r.0.Ok? ==> r.0.value.klass == o.klass
    ensures r.0.Ok? ==> forall key :: (forall c :: c in cols && Written(s, c) ==> Some(key) != WriteSlot(HelperAt(s, c.name).value)) ==>
      Slot(r.0.value, key, TObject) == Slot(o, key, TObject)
    decreases |cols|
  {
    if |cols| == 0 then (Ok(o), reg)
    else
      var front := cols[..|cols| - 1];
      var last := cols[|cols| - 1];
      assert cols == front + [last];
      var done := MapColumns(unmapped, s, env, ext, convs, reg, front, o);
      match done.0
      case Err(e) => (Err(e), done.1)
      case Ok(o1) => MapColumn(unmapped, s, env, ext, convs, done.1, last, o1)
  }

  /** The columns the mapper writes, in row order. */
  function WrittenColumns(s: Schema, cols: seq<Column>): (r: seq<Column>)
    ensures forall c :: c in r <==> c in cols && Written(s, c)
    decreases |cols|
  {
    if |cols| == 0 then []
    else
      var front := cols[..|cols| - 1];
      var last := cols[|cols| - 1];
      assert cols == front + [last];
      WrittenColumns(s, front) + if Written(s, last) then [last] else []
  }

  /** The converter map a row is mapped with and the registry it starts
      from: the mapper's own once it has one, else the map built from this
      row's columns (with the build's failure, if any). */
  function RowSetup(m: Mapper, s: Schema, row: seq<Column>): (r: (Option<Exception>, OMap<string, Converter>, Registry))
    ensures m.converters.Some? ==> r == (None, m.converters.value, m.registry)
    ensures m.converters.None? ==> r == BuildConverters(s, m.registry, row)
  {
    if m.converters.Some? then (None, m.converters.value, m.registry) else BuildConverters(s, m.registry, row)
  }

  /** The row mapper for one row: it builds the converter map from the row's
      columns if it has none (keeping whatever was built even when the build
      fails), instantiates the entity, and maps every column into it. */
  function MapRow(unmapped: Unmapped, m: Mapper, s: Schema, k: Klass, env: Env, ext: (string, Value) -> Result<Value>, row: seq<Column>): (r: (Result<Obj>, Mapper))
    ensures r.1.converters.Some?
    ensures m.converters.Some? ==> r.1.converters == m.converters
    ensures m.converters.None? && r.0.Ok? ==> forall c :: c in row ==> !SelectionFails(s, c.name, c.columnClass)
    ensures NewInstance(k).Err? ==> r.0.Err? && r.0.error.Runtime?
    ensures r.0.Ok? ==> r.0.value.klass == k
    ensures r.0.Ok? ==> forall key :: (forall c :: c in row && Written(s, c) ==> Some(key) != WriteSlot(HelperAt(s, c.name).value)) ==>
      Slot(r.0.value, key, TObject) == Slot(NewInstance(k).value, key, TObject)
  {
    var built := RowSetup(m, s, row);
    if built.0.Some? then (Err(built.0.value), Mapper(Some(built.1), built.2))
    else
      match NewInstance(k)
      case Err(_) => (Err(Runtime("Error instantiating")), Mapper(Some(built.1), built.2))
      case Ok(o) =>
        var mapped := MapColumns(unmapped, s, env, ext, built.1, built.2, row, o);
        (mapped.0, Mapper(Some(built.1), mapped.1))
  }

  /** The loop's step for one more column: an earlier failure is kept,
      otherwise the column is mapped into the object built so far. */
  function AfterColumn(unmapped: Unmapped, s: Schema, env: Env, ext: (string, Value) -> Result<Value>, convs: OMap<string, Converter>,
                       done: (Result<Obj>, Registry), c: Column): (Result<Obj>, Registry)
  {
    match done.0
    case Err(e) => (Err(e), done.1)
    case Ok(o1) => MapColumn(unmapped, s, env, ext, convs, done.1, c, o1)
  }

  lemma MapColumnsLast(unmapped: Unmapped, s: Schema, env: Env, ext: (string, Value) -> Result<Value>, convs: OMap<string, Converter>, reg: Registry, cols: seq<Column>, o: Obj)
    requires |cols| > 0
    ensures MapColumns(unmapped, s, env, ext, convs, reg, cols, o) ==
      AfterColumn(unmapped, s, env, ext, convs, MapColumns(unmapped, s, env, ext, convs, reg, cols[..|cols| - 1], o), cols[|cols| - 1])
  {
  }

  /** Column `i` is written, and no later column writes its slot. */
  predicate LastWrite(s: Schema, cols: seq<Column>, i: int) {
    && 0 <= i < |cols| && Written(s, cols[i])
    && forall j :: i < j < |cols| ==>
         !(Written(s, cols[j]) && WriteSlot(HelperAt(s, cols[j].name).value) == WriteSlot(HelperAt(s, cols[i].name).value))
  }

  /** The last column, when it is written, leaves its converted value in its slot. */
  lemma MapColumnsWritesLast(unmapped: Unmapped, s: Schema, env: Env, ext: (string, Value) -> Result<Value>, convs: OMap<string, Converter>,
                             reg: Registry, cols: seq<Column>, o: Obj)
    requires |cols| > 0 && Written(s, cols[|cols| - 1]) && WriteSlot(HelperAt(s, cols[|cols| - 1].name).value).Some?
    requires MapColumns(unmapped, s, env, ext, convs, reg, cols, o).0.Ok?
    ensures var c := cols[|cols| - 1];
      var conv := ConverterFor(s, convs, MapColumns(unmapped, s, env, ext, convs, reg, cols[..|cols| - 1], o).1, c);
      && conv.0.Ok? && Apply(env, ext, conv.0.value, c.value).Ok?
      && Slot(MapColumns(unmapped, s, env, ext, convs, reg, cols, o).0.value, WriteSlot(HelperAt(s, c.name).value).value, TObject)
         == Stored(HelperAt(s, c.name).value, Apply(env, ext, conv.0.value, c.value).value)
  {
    MapColumnsLast(unmapped, s, env, ext, convs, reg, cols, o);
    assert MapColumns(unmapped, s, env, ext, convs, reg, cols[..|cols| - 1], o).0.Ok?;
  }

  /** A last column that does not write a slot leaves it as the earlier columns left it. */
  lemma MapColumnsKeepsSlot(unmapped: Unmapped, s: Schema, env: Env, ext: (string, Value) -> Result<Value>, convs: OMap<string, Converter>,
                            reg: Registry, cols: seq<Column>, o: Obj, key: string)
    requires |cols| > 0 && MapColumns(unmapped, s, env, ext, convs, reg, cols, o).0.Ok?
    requires Written(s, cols[|cols| - 1]) ==> Some(key) != WriteSlot(HelperAt(s, cols[|cols| - 1].name).value)
    ensures MapColumns(unmapped, s, env, ext, convs, reg, cols[..|cols| - 1], o).0.Ok?
    ensures Slot(MapColumns(unmapped, s, env, ext, convs, reg, cols, o).0.value, key, TObject)
      == Slot(MapColumns(unmapped, s, env, ext, convs, reg, cols[..|cols| - 1], o).0.value, key, TObject)
  {
    MapColumnsLast(unmapped, s, env, ext, convs, reg, cols, o);
  }

  /** After a successful pass over the columns, the slot the last writer of
      it fills holds that column's value as converted when the loop reached
      it (against the registry the earlier columns left) and stored by the
      property. */
  lemma {:induction false} MapColumnsWrites(unmapped: Unmapped, s: Schema, env: Env, ext: (string, Value) -> Result<Value>, convs: OMap<string, Converter>,
                                            reg: Registry, cols: seq<Column>, o: Obj, i: int)
    requires LastWrite(s, cols, i) && WriteSlot(HelperAt(s, cols[i].name).value).Some?
    requires MapColumns(unmapped, s, env, ext, convs, reg, cols, o).0.Ok?
    ensures var conv := ConverterFor(s, convs, MapColumns(unmapped, s, env, ext, convs, reg, cols[..i], o).1, cols[i]);
      && conv.0.Ok? && Apply(env, ext, conv.0.value, cols[i].value).Ok?
      && Slot(MapColumns(unmapped, s, env, ext, convs, reg, cols, o).0.value, WriteSlot(HelperAt(s, cols[i].name).value).value, TObject)
         == Stored(HelperAt(s, cols[i].name).value, Apply(env, ext, conv.0.value, cols[i].value).value)
    decreases |cols|
  {
    var front := cols[..|cols| - 1];
    if i == |cols| - 1 {
      MapColumnsWritesLast(unmapped, s, env, ext, convs, reg, cols, o);
    } else {
      var key := WriteSlot(HelperAt(s, cols[i].name).value).value;
      MapColumnsKeepsSlot(unmapped, s, env, ext, convs, reg, cols, o, key);
      assert front[..i] == cols[..i];
      assert forall j :: i < j < |front| ==> front[j] == cols[j];
      assert LastWrite(s, front, i);
      MapColumnsWrites(unmapped, s, env, ext, convs, reg, front, o, i);
    }
  }

  /** The row mapper's entity holds, in the slot each column last writes,
      that column's value as converted with the row's converter map and
      stored by its property. */
  lemma MapRowWrites(unmapped: Unmapped, m: Mapper, s: Schema, k: Klass, env: Env, ext: (string, Value) -> Result<Value>, row: seq<Column>, i: int)
    requires LastWrite(s, row, i) && WriteSlot(HelperAt(s, row[i].name).value).Some?
    requires MapRow(unmapped, m, s, k, env, ext, row).0.Ok?
    ensures NewInstance(k).Ok? && RowSetup(m, s, row).0.None?
    ensures var setup := RowSetup(m, s, row);
      var conv := ConverterFor(s, setup.1, MapColumns(unmapped, s, env, ext, setup.1, setup.2, row[..i], NewInstance(k).value).1, row[i]);
      && conv.0.Ok? && Apply(env, ext, conv.0.value, row[i].value).Ok?
      && Slot(MapRow(unmapped, m, s, k, env, ext, row).0.value, WriteSlot(HelperAt(s, row[i].name).value).value, TObject)
         == Stored(HelperAt(s, row[i].name).value, Apply(env, ext, conv.0.value, row[i].value).value)
  {
    var setup := RowSetup(m, s, row);
    assert setup.0.None?;
    var o := NewInstance(k).value;
    assert MapRow(unmapped, m, s, k, env, ext, row).0 == MapColumns(unmapped, s, env, ext, setup.1, setup.2, row, o).0;
    MapColumnsWrites(unmapped, s, env, ext, setup.1, setup.2, row, o, i);
  }

  /** Passing over unmapped columns and null values, the corrected mapper
      does exactly what it does for the columns it writes. */
  lemma {:induction false} SkipWritesOnly(s: Schema, env: Env, ext: (string, Value) -> Result<Value>, convs: OMap<string, Converter>, reg: Registry, cols: seq<Column>, o: Obj)
    ensures MapColumns(Skip, s, env, ext, convs, reg, cols, o) == MapColumns(Skip, s, env, ext, convs, reg, WrittenColumns(s, cols), o)
    decreases |cols|
  {
    if |cols| > 0 {
      var front := cols[..|cols| - 1];
      var last := cols[|cols| - 1];
      SkipWritesOnly(s, env, ext, convs, reg, front, o);
      MapColumnsLast(Skip, s, env, ext, convs, reg, cols, o);
      var w := WrittenColumns(s, front);
      var done := MapColumns(Skip, s, env, ext, convs, reg, front, o);
      if Written(s, last) {
        var ws := w + [last];
        assert WrittenColumns(s, cols) == ws;
        assert ws[..|ws| - 1] == w && ws[|ws| - 1] == last;
        MapColumnsLast(Skip, s, env, ext, convs, reg, ws, o);
      } else {
        assert WrittenColumns(s, cols) == w;
        assert AfterColumn(Skip, s, env, ext, convs, done, last) == done;
      }
    }
  }

  /** As written, a row with a column no property is mapped to always
      fails. */
  lemma {:induction false} ThrowNullFailsOnUnmapped(s: Schema, env: Env, ext: (string, Value) -> Result<Value>, convs: OMap<string, Converter>, reg: Registry, cols: seq<Column>, o: Obj)
    requires exists c :: c in cols && HelperAt(s, c.name).None?
    ensures MapColumns(ThrowNull, s, env, ext, convs, reg, cols, o).0.Err?
    decreases |cols|
  {
    var front := cols[..|cols| - 1];
    var last := cols[|cols| - 1];
    assert cols == front + [last];
    if exists c :: c in front && HelperAt(s, c.name).None? {
      ThrowNullFailsOnUnmapped(s, env, ext, convs, reg, front, o);
    }
  }

  /** When every column is mapped the two treatments agree. */
  lemma {:induction false} MappedRowsAgree(s: Schema, env: Env, ext: (string, Value) -> Result<Value>, convs: OMap<string, Converter>, reg: Registry, cols: seq<Column>, o: Obj)
    requires forall c :: c in cols ==> HelperAt(s, c.name).Some?
    ensures MapColumns(ThrowNull, s, env, ext, convs, reg, cols, o) == MapColumns(Skip, s, env, ext, convs, reg, cols, o)
    decreases |cols|
  {
    if |cols| > 0 {
      var front := cols[..|cols| - 1];
      assert cols == front + [cols[|cols| - 1]];
      MappedRowsAgree(s, env, ext, convs, reg, front, o);
    }
  }

  /** The counterexample: one result column no property is mapped to makes
      the mapper as written throw NullPointerException for an entity it can
      instantiate. */
  lemma UnmappedColumnThrows(m: Mapper, s: Schema, k: Klass, env: Env, ext: (string, Value) -> Result<Value>, c: Column)
    requires HelperAt(s, c.name).None?
    requires NewInstance(k).Ok?
    ensures MapRow(ThrowNull, m, s, k, env, ext, [c]).0 == Err(NullPointer)
  {
    assert !SelectionFails(s, c.name, c.columnClass);
    var built := if m.converters.Some? then (None, m.converters.value, m.registry) else BuildConverters(s, m.registry, [c]);
    assert built.0.None?;
    var o := NewInstance(k).value;
    assert [c][..0] == [];
    assert MapColumns(ThrowNull, s, env, ext, built.1, built.2, [], o) == (Ok(o), built.2);
    assert MapColumns(ThrowNull, s, env, ext, built.1, built.2, [c], o) == MapColumn(ThrowNull, s, env, ext, built.1, built.2, c, o);
  }

  /** The corrected mapper returns the fresh entity for the same row. */
  lemma UnmappedColumnIgnored(m: Mapper, s: Schema, k: Klass, env: Env, ext: (string, Value) -> Result<Value>, c: Column)
    requires HelperAt(s, c.name).None?
    requires NewInstance(k).Ok?
    ensures MapRow(Skip, m, s, k, env, ext, [c]).0 == NewInstance(k)
  {
    assert !SelectionFails(s, c.name, c.columnClass);
    var built := if m.converters.Some? then (None, m.converters.value, m.registry) else BuildConverters(s, m.registry, [c]);
    assert built.0.None?;
    var o := NewInstance(k).value;
    assert [c][..0] == [];
    assert MapColumns(Skip, s, env, ext, built.1, built.2, [], o) == (Ok(o), built.2);
    assert MapColumns(Skip, s, env, ext, built.1, built.2, [c], o) == MapColumn(Skip, s, env, ext, built.1, built.2, c, o);
  }
}
