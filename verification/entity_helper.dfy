/** The entity utilities: trimming strings to null, the property-by-property
    merge of a stored entity with an update, clearing empty and unwanted
    strings, and comparing two entities property by property. */
module EntityHelper {
  import opened Wrappers
  import opened JavaStrings
  import opened JavaTypes
  import opened OrderedMaps
  import opened CopyBehavior
  import opened PropertyHelper
  import opened ObjectBackedContainer

  /** `toTrimmedOrNull`: null for null, empty and blank text, else the
      trimmed text. */
  function ToTrimmedOrNull(s: Option<string>): (r: Option<string>)
    ensures r.None? <==> s.None? || IsBlank(s.value)
    ensures r.Some? ==> |r.value| > 0 && HasNoPadding(r.value) && r.value == Trim(s.value)
  {
    match s
    case None => None
    case Some(text) =>
      if |text| == 0 then None
      else if |Trim(text)| == 0 then None
      else Some(Trim(text))
  }

  /** Trimming again changes nothing. */
  lemma ToTrimmedOrNullIdempotent(s: Option<string>)
    ensures ToTrimmedOrNull(ToTrimmedOrNull(s)) == ToTrimmedOrNull(s)
  {
    if ToTrimmedOrNull(s).Some? {
      TrimIdempotent(s.value);
    }
  }

  /** Text that is already trimmed and not empty comes back unchanged. */
  lemma ToTrimmedOrNullKeeps(s: string)
    requires |s| > 0 && HasNoPadding(s)
    ensures ToTrimmedOrNull(Some(s)) == Some(s)
  {
    TrimFixedIff(s);
  }

  /** The update's value as the merge sees it: a string passes through
      `toTrimmedOrNull`, anything else is left alone. */
  function TrimmedValue(v: Value): (r: Value)
    ensures !v.VString? ==> r == v
    ensures v.VString? ==> (r.VNull? <==> IsBlank(v.s))
    ensures v.VString? && !r.VNull? ==> r == VString(Trim(v.s))
  {
    if v.VString? then
      match ToTrimmedOrNull(Some(v.s))
      case None => VNull
      case Some(t) => VString(t)
    else v
  }

  /** One step of a walk over a class's properties: the value to write into
      the target for a property, `None` to leave the property alone. */
  type Step = (Helper, Obj) -> Result<Option<Value>>

  /** The loop both `updateMerge` and `cleanUpEmptyStrings` run: for each
      property in map order, compute its value from the target as it stands
      and write it; the first failure ends the walk. */
  function WriteEach(props: Properties, step: Step, target: Obj): (r: Result<Obj>)
    ensures r.Ok? ==> r.value.klass == target.klass
    ensures r.Ok? ==> forall key :: (forall i :: 0 <= i < |props| ==> WriteSlot(props[i].1) != Some(key)) ==>
      Slot(r.value, key, TObject) == Slot(target, key, TObject)
    decreases |props|
  {
    if |props| == 0 then Ok(target)
    else
      var front := props[..|props| - 1];
      var h := props[|props| - 1].1;
      var before :- WriteEach(front, step, target);
      var value :- step(h, before);
      match value
      case None => Ok(before)
      case Some(v) =>
        SetValueFrame(h, before, v);
        SetValue(h, before, v)
  }

  /** A property whose slot no other property writes ends the walk holding
      what its own step wrote, or what it held before the walk when the
      step wrote nothing; the step ran on some state of the target. */
  lemma {:induction false} WriteEachSlot(props: Properties, step: Step, target: Obj, i: nat)
    requires WriteEach(props, step, target).Ok?
    requires i < |props| && WriteSlot(props[i].1).Some?
    requires forall j :: 0 <= j < |props| && j != i ==> WriteSlot(props[j].1) != WriteSlot(props[i].1)
    ensures exists o: Obj :: (step(props[i].1, o).Ok? &&
      Slot(WriteEach(props, step, target).value, WriteSlot(props[i].1).value, TObject) ==
        match step(props[i].1, o).value
        case None => Slot(target, WriteSlot(props[i].1).value, TObject)
        case Some(v) => Stored(props[i].1, v))
    decreases |props|
  {
    var front := props[..|props| - 1];
    var h := props[|props| - 1].1;
    var key := WriteSlot(props[i].1).value;
    var before := WriteEach(front, step, target).value;
    var r := WriteEach(props, step, target).value;
    if i < |props| - 1 {
      WriteEachSlot(front, step, target, i);
      var o: Obj :| step(front[i].1, o).Ok? &&
        Slot(before, key, TObject) ==
          match step(front[i].1, o).value
          case None => Slot(target, key, TObject)
          case Some(v) => Stored(front[i].1, v);
      assert WriteSlot(h) != Some(key);
      SetValueFrame(h, before, if step(h, before).value.Some? then step(h, before).value.value else VNull);
      assert Slot(r, key, TObject) == Slot(before, key, TObject);
    } else {
      assert forall j :: 0 <= j < |front| ==> WriteSlot(front[j].1) != Some(key);
      if step(h, before).value.Some? {
        SetValueFrame(h, before, step(h, before).value.value);
      }
      assert step(props[i].1, before).Ok?;
    }
  }

  /** What the merge writes for one property: the behaviour applied to its
      value in the stored entity and its trimmed value in the update;
      reading either can fail. */
  function MergeValue(h: Helper, existing: Obj, updated: Obj): (r: Result<Option<Value>>)
    ensures r.Ok? <==> GetValue(h, existing).Ok? && GetValue(h, updated).Ok?
    ensures r.Ok? ==> r.value == Merged(BehaviorOf(h), GetValue(h, existing).value, TrimmedValue(GetValue(h, updated).value))
  {
    var stored :- GetValue(h, existing);
    var newer :- GetValue(h, updated);
    Ok(Merged(BehaviorOf(h), stored, TrimmedValue(newer)))
  }

  const COPY_FAILED: Exception := Runtime("Can't copy entity")

  /** `updateMerge(existing, updated)`: a new instance of the stored
      entity's class into which every property of the update's class gets
      its merged value; every failure, null arguments included, is
      reported as one RuntimeException. */
  function UpdateMerge(existing: Option<Obj>, updated: Option<Obj>): (r: Result<Obj>)
    ensures r.Err? ==> r.error == COPY_FAILED
    ensures existing.None? || updated.None? ==> r.Err?
    ensures r.Ok? ==> existing.Some? && updated.Some? && Discover(updated.value.klass).Ok?
    ensures r.Ok? ==> r.value.klass == existing.value.klass
    ensures r.Ok? ==> forall key :: (forall i :: 0 <= i < |Discover(updated.value.klass).value| ==> WriteSlot(Discover(updated.value.klass).value[i].1) != Some(key)) ==>
      Slot(r.value, key, TObject) == DefaultValue(TObject)
  {
    if updated.None? || existing.None? then Err(COPY_FAILED)
    else
      var props :- Discover(updated.value.klass).MapError(COPY_FAILED);
      var initial :- NewInstance(existing.value.klass).MapError(COPY_FAILED);
      WriteEach(props, (h, o) => MergeValue(h, existing.value, updated.value), initial).MapError(COPY_FAILED)
  }

  /** Every property of the merged copy whose slot no other property
      writes holds the merged value of its two sources; an IGNORE property
      keeps the initial instance's default. */
  lemma MergedProperty(existing: Obj, updated: Obj, i: nat)
    requires UpdateMerge(Some(existing), Some(updated)).Ok?
    requires i < |Discover(updated.klass).value|
    requires var props := Discover(updated.klass).value;
      WriteSlot(props[i].1).Some? && forall j :: 0 <= j < |props| && j != i ==> WriteSlot(props[j].1) != WriteSlot(props[i].1)
    ensures var h := Discover(updated.klass).value[i].1;
      && MergeValue(h, existing, updated).Ok?
      && Slot(UpdateMerge(Some(existing), Some(updated)).value, WriteSlot(h).value, TObject) ==
        match MergeValue(h, existing, updated).value
        case None => DefaultValue(TObject)
        case Some(v) => Stored(h, v)
  {
    var props := Discover(updated.klass).value;
    var step: Step := (h, o) => MergeValue(h, existing, updated);
    var initial := NewInstance(existing.klass).value;
    WriteEachSlot(props, step, initial, i);
  }

  /** Under the default behaviour a blank string in the update keeps the
      stored value, and a non-blank one is taken trimmed. */
  lemma BlankUpdateKeepsStored(h: Helper, existing: Obj, updated: Obj, s: string)
    requires BehaviorOf(h) == MostRecentNonNull
    requires GetValue(h, existing).Ok? && GetValue(h, updated) == Ok(VString(s))
    ensures IsBlank(s) ==> MergeValue(h, existing, updated) == Ok(Some(GetValue(h, existing).value))
    ensures !IsBlank(s) ==> MergeValue(h, existing, updated) == Ok(Some(VString(Trim(s))))
  {
  }

  /** The string a property ends with after cleaning: trimmed, and null
      when blank or one of the listed null values. */
  function CleanString(s: Option<string>, nulls: seq<string>): (r: Option<string>)
    ensures r.Some? ==> |r.value| > 0 && HasNoPadding(r.value) && r.value !in nulls
    ensures r.None? <==> s.None? || IsBlank(s.value) || Trim(s.value) in nulls
    ensures r.Some? ==> r == ToTrimmedOrNull(s)
  {
    match ToTrimmedOrNull(s)
    case None => None
    case Some(t) => if t in nulls then None else Some(t)
  }

  /** Cleaning again changes nothing. */
  lemma CleanStringIdempotent(s: Option<string>, nulls: seq<string>)
    ensures CleanString(CleanString(s, nulls), nulls) == CleanString(s, nulls)
  {
    if CleanString(s, nulls).Some? {
      ToTrimmedOrNullIdempotent(s);
    }
  }

  /** One property of `cleanUpEmptyStrings`: a `String` property is read
      from the object as it stands and written back cleaned; a value that is
      not a string fails the cast; other properties are left alone. */
  function CleanValue(h: Helper, o: Obj, nulls: seq<string>): (r: Result<Option<Value>>)
    ensures h.ptype != TString ==> r == Ok(None)
    ensures h.ptype == TString && r.Ok? ==> r.value.Some?
    ensures r.Ok? && r.value.Some? ==> r.value.value.VNull? || (r.value.value.VString? && r.value.value.s !in nulls && |r.value.value.s| > 0 && HasNoPadding(r.value.value.s))
    ensures h.ptype == TString && GetValue(h, o).Ok? && !(GetValue(h, o).value.VNull? || GetValue(h, o).value.VString?) ==> r == Err(ClassCast)
  {
    if h.ptype != TString then Ok(None)
    else
      var v :- GetValue(h, o);
      if v.VNull? then Ok(Some(VNull))
      else if !v.VString? then Err(ClassCast)
      else
        match CleanString(Some(v.s), nulls)
        case None => Ok(Some(VNull))
        case Some(t) => Ok(Some(VString(t)))
  }

  const CLEAN_FAILED: Exception := Runtime("Error while cleaning up object Strings")

  /** `cleanUpEmptyStrings(object, otherNullValues)`: null stays null;
      otherwise every `String` property of the object is cleaned in place
      and the same object is returned. */
  function CleanUpEmptyStrings(o: Option<Obj>, nulls: seq<string>): (r: Result<Option<Obj>>)
    ensures o.None? ==> r == Ok(None)
    ensures r.Err? ==> r.error == CLEAN_FAILED
    ensures o.Some? && r.Ok? ==> r.value.Some? && r.value.value.klass == o.value.klass && Discover(o.value.klass).Ok?
    ensures o.Some? && r.Ok? ==> forall key :: (forall i :: 0 <= i < |Discover(o.value.klass).value| ==> WriteSlot(Discover(o.value.klass).value[i].1) != Some(key)) ==>
      Slot(r.value.value, key, TObject) == Slot(o.value, key, TObject)
  {
    match o
    case None => Ok(None)
    case Some(x) =>
      var props :- Discover(x.klass).MapError(CLEAN_FAILED);
      var cleaned :- WriteEach(props, (h, current) => CleanValue(h, current, nulls), x).MapError(CLEAN_FAILED);
      Ok(Some(cleaned))
  }

  /** A `String` property whose slot no other property writes is never
      left holding empty, padded or listed text after cleaning. */
  lemma CleanedProperty(x: Obj, nulls: seq<string>, i: nat)
    requires CleanUpEmptyStrings(Some(x), nulls).Ok?
    requires i < |Discover(x.klass).value|
    requires var props := Discover(x.klass).value;
      props[i].1.ptype == TString && WriteSlot(props[i].1).Some? &&
      forall j :: 0 <= j < |props| && j != i ==> WriteSlot(props[j].1) != WriteSlot(props[i].1)
    ensures var h := Discover(x.klass).value[i].1;
      var v := Slot(CleanUpEmptyStrings(Some(x), nulls).value.value, WriteSlot(h).value, TObject);
      v.VNull? || (v.VString? && v.s !in nulls && |v.s| > 0 && HasNoPadding(v.s))
  {
    var props := Discover(x.klass).value;
    var h := props[i].1;
    var step: Step := (h, current) => CleanValue(h, current, nulls);
    assert CleanUpEmptyStrings(Some(x), nulls).value.value == WriteEach(props, step, x).value;
    WriteEachSlot(props, step, x, i);
    var o: Obj :| step(h, o).Ok? &&
      Slot(WriteEach(props, step, x).value, WriteSlot(h).value, TObject) ==
        match step(h, o).value
        case None => Slot(x, WriteSlot(h).value, TObject)
        case Some(v) => Stored(h, v);
    assert step(h, o) == CleanValue(h, o, nulls);
    var v := step(h, o).value.value;
    assert v.VNull? || (v.VString? && v.s !in nulls && |v.s| > 0 && HasNoPadding(v.s));
    StoredReference(h, v);
  }

  /** Both values of a property equal, or one of them unreadable, which the
      comparison logs and passes over. */
  predicate Agrees(h: Helper, a: Obj, b: Obj) {
    GetValue(h, a).Ok? && GetValue(h, b).Ok? ==> GetValue(h, a).value == GetValue(h, b).value
  }

  /** The comparison loop, which stops at the first disagreeing property. */
  function AllAgree(props: Properties, a: Obj, b: Obj): (r: bool)
    ensures r <==> forall i :: 0 <= i < |props| ==> Agrees(props[i].1, a, b)
    decreases |props|
  {
    if |props| == 0 then true
    else
      var front := props[..|props| - 1];
      assert forall i :: 0 <= i < |front| ==> front[i] == props[i];
      AllAgree(front, a, b) && Agrees(props[|props| - 1].1, a, b)
  }

  /** `areEquivalent(a, b)`: a null argument throws; objects of different
      classes are not equivalent; otherwise every property of the class
      that can be read on both must hold equal values. A class the
      container cannot instantiate makes the comparison throw. */
  function AreEquivalent(a: Option<Obj>, b: Option<Obj>): (r: Result<bool>)
    ensures a.None? || b.None? ==> r == Err(NullPointer)
    ensures a.Some? && b.Some? && a.value.klass != b.value.klass ==> r == Ok(false)
    ensures r == Ok(true) <==> (a.Some? && b.Some? && a.value.klass == b.value.klass && FromClass(a.value.klass).Ok? &&
      forall i :: 0 <= i < |FromClass(a.value.klass).value.properties| ==> Agrees(FromClass(a.value.klass).value.properties[i].1, a.value, b.value))
  {
    if a.None? || b.None? then Err(NullPointer)
    else if a.value.klass != b.value.klass then Ok(false)
    else
      var container :- FromClass(a.value.klass);
      Ok(AllAgree(container.properties, a.value, b.value))
  }

  /** Every object of a class the container can instantiate is equivalent
      to itself. */
  lemma EquivalentReflexive(x: Obj)
    requires FromClass(x.klass).Ok?
    ensures AreEquivalent(Some(x), Some(x)) == Ok(true)
  {
  }

  /** The comparison does not depend on the order of its arguments. */
  lemma EquivalentSymmetric(a: Option<Obj>, b: Option<Obj>)
    ensures AreEquivalent(a, b) == AreEquivalent(b, a)
  {
    if a.Some? && b.Some? && a.value.klass == b.value.klass && FromClass(a.value.klass).Ok? {
      var props := FromClass(a.value.klass).value.properties;
      assert forall i :: 0 <= i < |props| ==> (Agrees(props[i].1, a.value, b.value) <==> Agrees(props[i].1, b.value, a.value));
    }
  }
}
