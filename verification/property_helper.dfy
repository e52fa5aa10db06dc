/** Reflective property discovery and access. A class is described by its
    declared fields, its public methods and its superclass; a property
    helper bundles the field, getter and setter that belong to one property
    name; discovery builds the name-to-helper map of a class from its
    fields (climbing the superclasses) and then from its `get`/`set`
    methods, and memoises it per class. */
module PropertyHelper {
  import opened Wrappers
  import opened JavaStrings
  import opened JavaTypes
  import opened OrderedMaps
  import opened Annotations
  import opened CopyBehavior

  datatype FieldDecl = FieldDecl(
    declaringClass: string,
    name: string,
    ftype: JType,
    isStatic: bool,
    isFinal: bool,
    isPublic: bool,
    annotations: seq<Annotation>)

  datatype MethodDecl = MethodDecl(
    declaringClass: string,
    name: string,
    params: seq<JType>,
    returnType: JType,
    annotations: seq<Annotation>)

  /** `java.lang.Object`, or a class with its declared fields, its public
      methods other than those of `Object` (declared or inherited, in the
      order reflection reports them), its superclass, its annotations, and
      whether `newInstance` can build it. */
  datatype Klass =
    | ObjectClass
    | Klass(
        name: string,
        simpleName: string,
        fields: seq<FieldDecl>,
        methods: seq<MethodDecl>,
        superclass: Klass,
        annotations: seq<Annotation>,
        instantiable: bool)

  const OBJECT_NAME: string := "java.lang.Object"

  /** `Object.getClass()`, the only public method of `Object` whose name
      starts with `get` or `set`. */
  const GET_CLASS: MethodDecl := MethodDecl(OBJECT_NAME, "getClass", [], TClass("java.lang.Class"), [])

  function ClassName(k: Klass): string {
    if k.ObjectClass? then OBJECT_NAME else k.name
  }

  /** The names of the class and of every class above it. */
  function ChainNames(k: Klass): (r: seq<string>)
    ensures OBJECT_NAME in r && ClassName(k) in r
  {
    match k
    case ObjectClass => [OBJECT_NAME]
    case Klass(_, _, _, _, sup, _, _) => [k.name] + ChainNames(sup)
  }

  /** `klass.getMethods()`. */
  function PublicMethods(k: Klass): (r: seq<MethodDecl>)
    ensures |r| > 0 && r[|r| - 1] == GET_CLASS
    ensures forall m :: m in r <==> m == GET_CLASS || (k.Klass? && m in k.methods)
  {
    (if k.Klass? then k.methods else []) + [GET_CLASS]
  }

  function FirstMethod(ms: seq<MethodDecl>, name: string, params: seq<JType>): (r: Option<MethodDecl>)
    ensures r.Some? ==> r.value in ms && r.value.name == name && r.value.params == params
    ensures r.None? ==> forall i :: 0 <= i < |ms| ==> !(ms[i].name == name && ms[i].params == params)
  {
    if |ms| == 0 then None
    else if ms[0].name == name && ms[0].params == params then Some(ms[0])
    else FirstMethod(ms[1..], name, params)
  }

  /** `klass.getMethod(name, params)`: a public method with exactly that
      name and those parameter types, or `None` for NoSuchMethodException. */
  function GetMethod(k: Klass, name: string, params: seq<JType>): (r: Option<MethodDecl>)
    ensures r.Some? ==> r.value in PublicMethods(k) && r.value.name == name && r.value.params == params
    ensures r.None? ==> forall m :: m in PublicMethods(k) ==> !(m.name == name && m.params == params)
  {
    FirstMethod(PublicMethods(k), name, params)
  }

  function FirstField(fs: seq<FieldDecl>, name: string): (r: Option<FieldDecl>)
    ensures r.Some? ==> r.value in fs && r.value.name == name
    ensures r.None? ==> forall i :: 0 <= i < |fs| ==> fs[i].name != name
  {
    if |fs| == 0 then None
    else if fs[0].name == name then Some(fs[0])
    else FirstField(fs[1..], name)
  }

  /** `getField`: the field of that name declared by the class or, failing
      that, by the nearest superclass that declares one. */
  function GetField(k: Klass, name: string): (r: Option<FieldDecl>)
    ensures r.Some? ==> r.value.name == name
  {
    match k
    case ObjectClass => None
    case Klass(_, _, fields, _, sup, _, _) =>
      match FirstField(fields, name)
      case Some(f) => Some(f)
      case None => GetField(sup, name)
  }

  /** The first char upper-cased, as the accessor names of a field are
      formed. */
  function Capitalize(s: string): (r: string)
    ensures |r| == |s|
    ensures |s| > 0 ==> !IsAsciiLower(r[0]) && r[1..] == s[1..]
    ensures |s| > 0 && !IsAsciiLower(s[0]) ==> r == s
  {
    if |s| == 0 then "" else [ToUpperChar(s[0])] + s[1..]
  }

  /** The first char lower-cased. */
  function LowerFirst(s: string): (r: string)
    ensures |r| == |s|
    ensures |s| > 0 ==> !IsAsciiUpper(r[0]) && r[1..] == s[1..]
    ensures |s| > 0 && !IsAsciiUpper(s[0]) ==> r == s
  {
    if |s| == 0 then "" else [ToLowerChar(s[0])] + s[1..]
  }

  /** `getPropertyNameFromMethodName`: what follows the three-char `get` or
      `set` prefix, first char lower-cased; a name with no char at index 3
      raises StringIndexOutOfBoundsException. */
  function PropertyNameOfMethod(name: string): (r: Result<string>)
    ensures r.Err? <==> |name| < 4
    ensures r.Err? ==> r.error == IndexOutOfBounds
    ensures r.Ok? ==> r.value == LowerFirst(name[3..])
  {
    if |name| < 4 then Err(IndexOutOfBounds) else Ok([ToLowerChar(name[3])] + name[4..])
  }

  lemma LowerOfUpper(c: char)
    ensures ToLowerChar(ToUpperChar(c)) == ToLowerChar(c)
    ensures !IsAsciiUpper(c) ==> ToLowerChar(c) == c
  {
  }

  /** The accessor names formed from a field name give back that name, its
      first char lower-cased; so a field whose name does not start with a
      capital is found again under its own name. */
  lemma AccessorNameRoundTrip(prefix: string, fieldName: string)
    requires |prefix| == 3 && |fieldName| > 0
    ensures PropertyNameOfMethod(prefix + Capitalize(fieldName)) == Ok(LowerFirst(fieldName))
    ensures !IsAsciiUpper(fieldName[0]) ==> LowerFirst(fieldName) == fieldName
  {
    LowerOfUpper(fieldName[0]);
    var n := prefix + Capitalize(fieldName);
    assert n[3] == ToUpperChar(fieldName[0]) && n[4..] == fieldName[1..];
  }

  /** A lower-cased name is left alone by lower-casing it again. */
  lemma LowerFirstIdempotent(s: string)
    ensures LowerFirst(LowerFirst(s)) == LowerFirst(s)
  {
    if |s| > 0 {
      LowerOfUpper(LowerFirst(s)[0]);
      assert LowerFirst(s)[1..] == s[1..];
    }
  }

  /** One property: its field, getter and setter, any of which may be
      absent, and its type fixed when the helper is built. */
  datatype Helper = Helper(
    field: Option<FieldDecl>,
    getter: Option<MethodDecl>,
    setter: Option<MethodDecl>,
    ptype: JType)

  /** The three-argument constructor: the type is the field's, else the
      getter's return type, else the setter's first parameter type. */
  function NewHelper(field: Option<FieldDecl>, getter: Option<MethodDecl>, setter: Option<MethodDecl>): (r: Result<Helper>)
    ensures r.Err? <==> field.None? && getter.None? && (setter.None? || |setter.value.params| == 0)
    ensures r.Ok? ==> r.value.field == field && r.value.getter == getter && r.value.setter == setter
    ensures r.Ok? && field.Some? ==> r.value.ptype == field.value.ftype
    ensures r.Ok? && field.None? && getter.Some? ==> r.value.ptype == getter.value.returnType
    ensures r.Ok? && field.None? && getter.None? ==> r.value.ptype == setter.value.params[0]
  {
    if field.Some? then Ok(Helper(field, getter, setter, field.value.ftype))
    else if getter.Some? then Ok(Helper(field, getter, setter, getter.value.returnType))
    else if setter.None? then Err(IllegalArgument("One of field, setter, or getter may not be null"))
    else if |setter.value.params| == 0 then Err(IndexOutOfBounds)
    else Ok(Helper(field, getter, setter, setter.value.params[0]))
  }

  /** `getName`: the field's name, else the name the getter, then the
      setter, denotes. */
  function GetName(h: Helper): (r: Result<string>)
    ensures h.field.Some? ==> r == Ok(h.field.value.name)
    ensures h.field.None? && h.getter.None? && h.setter.None? ==> r.Err?
  {
    if h.field.Some? then Ok(h.field.value.name)
    else if h.getter.Some? then PropertyNameOfMethod(h.getter.value.name)
    else if h.setter.Some? then PropertyNameOfMethod(h.setter.value.name)
    else Err(Runtime("Unable to get name from field, getter, or setter"))
  }

  /** `getAnnotation`: the field's annotation of that type, else the
      setter's, else the getter's. */
  function GetAnnotation(h: Helper, t: AnnotationType): (r: Option<Annotation>)
    ensures r.Some? ==> IsOfType(r.value, t)
    ensures r.Some? ==>
      || (h.field.Some? && r.value in h.field.value.annotations)
      || (h.setter.Some? && r.value in h.setter.value.annotations)
      || (h.getter.Some? && r.value in h.getter.value.annotations)
    ensures r.None? <==>
      && (h.field.None? || FindAnnotation(h.field.value.annotations, t).None?)
      && (h.setter.None? || FindAnnotation(h.setter.value.annotations, t).None?)
      && (h.getter.None? || FindAnnotation(h.getter.value.annotations, t).None?)
    ensures h.field.Some? && FindAnnotation(h.field.value.annotations, t).Some? ==> r == FindAnnotation(h.field.value.annotations, t)
  {
    if h.field.Some? && FindAnnotation(h.field.value.annotations, t).Some? then FindAnnotation(h.field.value.annotations, t)
    else if h.setter.Some? && FindAnnotation(h.setter.value.annotations, t).Some? then FindAnnotation(h.setter.value.annotations, t)
    else if h.getter.Some? then FindAnnotation(h.getter.value.annotations, t)
    else None
  }

  /** The copy rule of a property: its `@CopyBehavior` value, and
      MOST_RECENT_NON_NULL when it has none. */
  function BehaviorOf(h: Helper): (r: Behavior)
    ensures GetAnnotation(h, CopyBehaviorType).None? ==> r == DEFAULT_BEHAVIOR
    ensures GetAnnotation(h, CopyBehaviorType).Some? ==> Some(CopyBehaviorAnn(r)) == GetAnnotation(h, CopyBehaviorType)
  {
    match GetAnnotation(h, CopyBehaviorType)
    case Some(a) => a.behavior
    case None => DEFAULT_BEHAVIOR
  }

  /** An instance: its class and the values written into it. A bean
      accessor reads and writes the slot of the property its name denotes,
      a field the slot of its own name; an unwritten slot holds the default
      of its type. */
  datatype Obj = Obj(klass: Klass, slots: map<string, Value>)

  /** `klass.newInstance()`. */
  function NewInstance(k: Klass): (r: Result<Obj>)
    ensures r.Ok? ==> r.value.klass == k && r.value.slots == map[]
    ensures r.Err? <==> k.Klass? && !k.instantiable
  {
    if k.Klass? && !k.instantiable then Err(Instantiation) else Ok(Obj(k, map[]))
  }

  function Slot(o: Obj, key: string, t: JType): Value {
    if key in o.slots then o.slots[key] else DefaultValue(t)
  }

  /** The slot a bean accessor reaches. */
  function AccessorSlot(m: MethodDecl): string {
    match PropertyNameOfMethod(m.name)
    case Ok(p) => p
    case Err(_) => m.name
  }

  const NOT_AN_INSTANCE: string := "object is not an instance of declaring class"

  /** `getter.invoke(target)`. */
  function InvokeGetter(m: MethodDecl, o: Obj): (r: Result<Value>)
    ensures r.Err? <==> m.declaringClass !in ChainNames(o.klass) || |m.params| != 0
    ensures r.Ok? && m == GET_CLASS ==> r.value == VObject(TClass("java.lang.Class"), "class " + ClassName(o.klass))
  {
    if m.declaringClass !in ChainNames(o.klass) then Err(IllegalArgument(NOT_AN_INSTANCE))
    else if |m.params| != 0 then Err(IllegalArgument("wrong number of arguments"))
    else if m == GET_CLASS then Ok(VObject(TClass("java.lang.Class"), "class " + ClassName(o.klass)))
    else Ok(Slot(o, AccessorSlot(m), m.returnType))
  }

  /** `setter.invoke(target, value)`: the argument must suit the parameter. */
  function InvokeSetter(m: MethodDecl, o: Obj, v: Value): (r: Result<Obj>)
    ensures r.Ok? <==> m.declaringClass in ChainNames(o.klass) && |m.params| == 1 && Accepts(m.params[0], v)
    ensures r.Ok? ==> r.value.klass == o.klass
    ensures r.Ok? ==> forall key :: key != AccessorSlot(m) ==> Slot(r.value, key, TObject) == Slot(o, key, TObject)
  {
    if m.declaringClass !in ChainNames(o.klass) then Err(IllegalArgument(NOT_AN_INSTANCE))
    else if |m.params| != 1 then Err(IllegalArgument("wrong number of arguments"))
    else if !Accepts(m.params[0], v) then Err(IllegalArgument("argument type mismatch"))
    else Ok(o.(slots := o.slots[AccessorSlot(m) := Coerce(m.params[0], v)]))
  }

  /** `field.get(target)` after `setAccessible(true)`. */
  function ReadField(f: FieldDecl, o: Obj): (r: Result<Value>)
    ensures r.Err? <==> f.declaringClass !in ChainNames(o.klass)
    ensures r.Ok? ==> r.value == Slot(o, f.name, f.ftype)
  {
    if f.declaringClass !in ChainNames(o.klass) then Err(IllegalArgument(NOT_AN_INSTANCE))
    else Ok(Slot(o, f.name, f.ftype))
  }

  /** `field.set(target, value)` after `setAccessible(true)`: a static final
      field stays read-only. */
  function WriteField(f: FieldDecl, o: Obj, v: Value): (r: Result<Obj>)
    ensures r.Ok? <==> f.declaringClass in ChainNames(o.klass) && !(f.isStatic && f.isFinal) && Accepts(f.ftype, v)
    ensures r.Ok? ==> r.value.klass == o.klass
    ensures r.Ok? ==> forall key :: key != f.name ==> Slot(r.value, key, TObject) == Slot(o, key, TObject)
  {
    if f.declaringClass !in ChainNames(o.klass) then Err(IllegalArgument(NOT_AN_INSTANCE))
    else if f.isStatic && f.isFinal then Err(IllegalAccess)
    else if !Accepts(f.ftype, v) then Err(IllegalArgument("argument type mismatch"))
    else Ok(o.(slots := o.slots[f.name := Coerce(f.ftype, v)]))
  }

  /** `getValue`: through the getter if there is one, else the field. */
  function GetValue(h: Helper, o: Obj): (r: Result<Value>)
    ensures h.getter.Some? ==> r == InvokeGetter(h.getter.value, o)
    ensures h.getter.None? && h.field.Some? ==> r == ReadField(h.field.value, o)
    ensures h.getter.None? && h.field.None? ==> r.Err?
  {
    if h.getter.Some? then InvokeGetter(h.getter.value, o)
    else if h.field.Some? then ReadField(h.field.value, o)
    else Err(Runtime("Can't get value -- no field or getters available"))
  }

  /** `setValue`: through the setter if there is one, else the field; with
      neither, the write is dropped with a warning. */
  function SetValue(h: Helper, o: Obj, v: Value): (r: Result<Obj>)
    ensures h.setter.Some? ==> r == InvokeSetter(h.setter.value, o, v)
    ensures h.setter.None? && h.field.Some? ==> r == WriteField(h.field.value, o, v)
    ensures h.setter.None? && h.field.None? ==> r == Ok(o)
  {
    if h.setter.Some? then InvokeSetter(h.setter.value, o, v)
    else if h.field.Some? then WriteField(h.field.value, o, v)
    else Ok(o)
  }

  /** The slot `setValue` writes: the setter's property, else the field's
      own, and none when the helper has neither. */
  function WriteSlot(h: Helper): Option<string> {
    if h.setter.Some? then Some(AccessorSlot(h.setter.value))
    else if h.field.Some? then Some(h.field.value.name)
    else None
  }

  /** What a successful `setValue` stores: the value widened to the
      setter's parameter, else to the field's type. */
  function Stored(h: Helper, v: Value): Value {
    if h.setter.Some? && |h.setter.value.params| == 1 && Accepts(h.setter.value.params[0], v) then Coerce(h.setter.value.params[0], v)
    else if h.setter.None? && h.field.Some? && Accepts(h.field.value.ftype, v) then Coerce(h.field.value.ftype, v)
    else v
  }

  /** `setValue` writes its own slot and no other. */
  lemma SetValueFrame(h: Helper, o: Obj, v: Value)
    ensures SetValue(h, o, v).Ok? ==> SetValue(h, o, v).value.klass == o.klass
    ensures SetValue(h, o, v).Ok? ==> forall key :: Some(key) != WriteSlot(h) ==> Slot(SetValue(h, o, v).value, key, TObject) == Slot(o, key, TObject)
    ensures SetValue(h, o, v).Ok? && WriteSlot(h).Some? ==> Slot(SetValue(h, o, v).value, WriteSlot(h).value, TObject) == Stored(h, v)
  {
  }

  /** A reference-typed property stores null and strings unchanged. */
  lemma StoredReference(h: Helper, v: Value)
    requires v.VNull? || v.VString?
    ensures Stored(h, v) == v
  {
  }

  /** `AccessorFunction.apply`: `getValue` with every failure rethrown as
      a RuntimeException. */
  function Accessor(h: Helper, o: Obj): (r: Result<Value>)
    ensures r.Ok? <==> GetValue(h, o).Ok?
    ensures r.Ok? ==> r == GetValue(h, o)
    ensures r.Err? ==> r.error.Runtime?
  {
    GetValue(h, o).MapError(Runtime("Error using property helper"))
  }

  type Properties = OMap<string, Helper>

  /** One declared field in `addHelpersFromFields`: static and final fields
      are skipped; a field with a public `getX()` and `setX(<getter type>)`
      gets a full helper (unless the getter is `getClass`); otherwise a
      public field gets a field-only helper and any other field nothing. */
  function AddFieldHelper(k: Klass, props: Properties, f: FieldDecl): (r: Result<Properties>)
    ensures r.Err? <==> !f.isStatic && !f.isFinal && |f.name| == 0
    ensures r.Err? ==> r.error == IndexOutOfBounds
    ensures r.Ok? ==> forall key :: HasKey(props, key) ==> HasKey(r.value, key)
    ensures r.Ok? ==> forall key :: HasKey(r.value, key) ==> HasKey(props, key) || key == f.name
  {
    forall h: Helper, key: string ensures HasKey(Put(props, f.name, h), key) <==> HasKey(props, key) || key == f.name {
      PutHasKey(props, f.name, h, key);
    }
    if f.isStatic || f.isFinal then Ok(props)
    else if |f.name| == 0 then Err(IndexOutOfBounds)
    else
      var suffix := Capitalize(f.name);
      var fieldOnly := if f.isPublic then Put(props, f.name, Helper(Some(f), None, None, f.ftype)) else props;
      match GetMethod(k, "get" + suffix, [])
      case None => Ok(fieldOnly)
      case Some(getter) =>
        match GetMethod(k, "set" + suffix, [getter.returnType])
        case None => Ok(fieldOnly)
        case Some(setter) =>
          if getter.name != "getClass" then Ok(Put(props, f.name, Helper(Some(f), Some(getter), Some(setter), f.ftype)))
          else Ok(props)
  }

  /** The loop over one class's declared fields, in declaration order. */
  function AddFieldHelpers(k: Klass, props: Properties, fields: seq<FieldDecl>): (r: Result<Properties>)
    ensures r.Err? <==> exists i :: 0 <= i < |fields| && BlankField(fields[i])
    ensures r.Err? ==> r.error == IndexOutOfBounds
    ensures r.Ok? ==> forall key :: HasKey(props, key) ==> HasKey(r.value, key)
    ensures r.Ok? ==> forall key :: HasKey(r.value, key) ==> HasKey(props, key) || exists i :: 0 <= i < |fields| && fields[i].name == key
    decreases |fields|
  {
    if |fields| == 0 then Ok(props)
    else
      var n := |fields| - 1;
      var front := fields[..n];
      assert forall i :: 0 <= i < n ==> front[i] == fields[i];
      var p :- AddFieldHelpers(k, props, front);
      AddFieldHelper(k, p, fields[n])
  }

  /** A field `addHelpersFromFields` neither skips nor can capitalise. */
  predicate BlankField(f: FieldDecl) {
    !f.isStatic && !f.isFinal && |f.name| == 0
  }

  /** `addHelpersFromFields(klass, list, true)`: the class's fields, then its
      superclass's, up to but excluding `Object`; started on `Object`
      itself it meets a null superclass. */
  function FieldPass(k: Klass, props: Properties): (r: Result<Properties>)
    ensures k.ObjectClass? ==> r == Err(NullPointer)
  {
    match k
    case ObjectClass => Err(NullPointer)
    case Klass(_, _, fields, _, sup, _, _) =>
      var p :- AddFieldHelpers(k, props, fields);
      if sup.ObjectClass? then Ok(p) else FieldPass(sup, p)
  }

  /** One public method in `getFromClass`: a no-argument `get…` or a
      one-argument `set…` becomes the getter or setter of the property its
      name denotes, creating the helper if there is none, and the helper's
      field becomes whatever field of that name the class hierarchy has. */
  function AddMethodHelper(k: Klass, props: Properties, m: MethodDecl): (r: Result<Properties>)
    ensures r.Err? <==> ShortAccessor(m)
    ensures r.Err? ==> r.error == IndexOutOfBounds
    ensures r.Ok? ==> forall key :: HasKey(props, key) ==> HasKey(r.value, key)
    ensures r.Ok? ==> forall key :: HasKey(r.value, key) ==> HasKey(props, key) || PropertyNameOfMethod(m.name) == Ok(key)
    ensures r.Ok? && IsAccessor(m) ==> HasKey(r.value, PropertyNameOfMethod(m.name).value)
  {
    forall h: Helper, pn: string, key: string ensures HasKey(Put(props, pn, h), key) <==> HasKey(props, key) || key == pn {
      PutHasKey(props, pn, h, key);
    }
    var isGetter := StartsWith(m.name, "get") && |m.params| == 0;
    var isSetter := StartsWith(m.name, "set") && |m.params| == 1;
    if !isGetter && !isSetter then Ok(props)
    else
      var pn :- PropertyNameOfMethod(m.name);
      var field := GetField(k, pn);
      match Get(props, pn)
      case None =>
        var h := if isGetter then NewHelper(field, Some(m), None).value else NewHelper(field, None, Some(m)).value;
        Ok(Put(props, pn, h))
      case Some(h) =>
        Ok(Put(props, pn, if isGetter then h.(getter := Some(m), field := field) else h.(setter := Some(m), field := field)))
  }

  /** The method loop, in the order `getMethods` reports them. */
  function AddMethodHelpers(k: Klass, props: Properties, ms: seq<MethodDecl>): (r: Result<Properties>)
    ensures r.Err? <==> exists i :: 0 <= i < |ms| && ShortAccessor(ms[i])
    ensures r.Err? ==> r.error == IndexOutOfBounds
    ensures r.Ok? ==> forall key :: HasKey(props, key) ==> HasKey(r.value, key)
    ensures r.Ok? ==> forall key :: HasKey(r.value, key) ==>
      HasKey(props, key) || exists i :: 0 <= i < |ms| && PropertyNameOfMethod(ms[i].name) == Ok(key)
    decreases |ms|
  {
    if |ms| == 0 then Ok(props)
    else
      var n := |ms| - 1;
      var front := ms[..n];
      assert forall i :: 0 <= i < n ==> front[i] == ms[i];
      var p :- AddMethodHelpers(k, props, front);
      AddMethodHelper(k, p, ms[n])
  }

  /** A no-argument `get…` or a one-argument `set…`. */
  predicate IsAccessor(m: MethodDecl) {
    (StartsWith(m.name, "get") && |m.params| == 0) || (StartsWith(m.name, "set") && |m.params| == 1)
  }

  /** An accessor with nothing after the prefix: its property name has no
      first char to read. */
  predicate ShortAccessor(m: MethodDecl) {
    IsAccessor(m) && |m.name| < 4
  }

  /** The property map `getFromClass` builds for a class not yet cached. */
  function Discover(k: Klass): (r: Result<Properties>)
    ensures k.ObjectClass? ==> r == Err(NullPointer)
  {
    var p :- FieldPass(k, []);
    AddMethodHelpers(k, p, PublicMethods(k))
  }

  /** The per-class memo. */
  type Cache = map<Klass, Properties>

  predicate CacheSound(c: Cache) {
    forall k :: k in c ==> Discover(k) == Ok(c[k])
  }

  /** `getFromClass`: the cached map when there is one, else a fresh
      discovery, which is cached when it succeeds. Memoisation never
      changes the answer. */
  function GetFromClass(c: Cache, k: Klass): (r: (Result<Properties>, Cache))
    ensures k in c ==> r == (Ok(c[k]), c)
    ensures CacheSound(c) ==> r.0 == Discover(k) && CacheSound(r.1)
    ensures r.0.Ok? ==> k in r.1 && r.1[k] == r.0.value
  {
    if k in c then (Ok(c[k]), c)
    else
      match Discover(k)
      case Ok(p) => (Ok(p), c[k := p])
      case Err(e) => (Err(e), c)
  }

  /** `getFromInstance`: the properties of the object's class. */
  function GetFromInstance(c: Cache, o: Option<Obj>): (r: (Result<Properties>, Cache))
    ensures o.None? ==> r == (Err(NullPointer), c)
    ensures o.Some? ==> r == GetFromClass(c, o.value.klass)
  {
    match o
    case None => (Err(NullPointer), c)
    case Some(obj) => GetFromClass(c, obj.klass)
  }

  /** Puts the annotation of every property that has one, in map order. */
  function CollectAnnotations(props: Properties, t: AnnotationType, acc: OMap<string, Annotation>): (r: OMap<string, Annotation>)
    decreases |props|
  {
    if |props| == 0 then acc
    else
      var before := CollectAnnotations(props[..|props| - 1], t, acc);
      match GetAnnotation(props[|props| - 1].1, t)
      case Some(a) => Put(before, props[|props| - 1].0, a)
      case None => before
  }

  /** The entry `CollectAnnotations` puts for a property: its name and the
      annotation of the type it carries, if it carries one. */
  function AnnotationEntry(t: AnnotationType): ((string, Helper)) -> Option<(string, Annotation)> {
    (e: (string, Helper)) => match GetAnnotation(e.1, t) case Some(a) => Some((e.0, a)) case None => None
  }

  /** The name `CollectAnnotations` files a property under: its own, when
      it carries an annotation of the type. */
  function AnnotatedKey(t: AnnotationType): ((string, Helper)) -> Option<string> {
    EntryKey(AnnotationEntry(t))
  }

  /** The annotation of the type a property carries. */
  function AnnotationIn(t: AnnotationType): ((string, Helper)) -> Option<Annotation> {
    EntryValue(AnnotationEntry(t))
  }

  /** `CollectAnnotations` puts each annotated property's entry in order. */
  lemma {:induction false} CollectAnnotationsPutsAll(props: Properties, t: AnnotationType, acc: OMap<string, Annotation>)
    ensures CollectAnnotations(props, t, acc) == PutAll(props, AnnotationEntry(t), acc)
    decreases |props|
  {
    if |props| > 0 {
      CollectAnnotationsPutsAll(props[..|props| - 1], t, acc);
    }
  }

  /** Each name ends up with the annotation of the last property of that
      name that carries one, and keeps what `acc` held when none does. */
  lemma CollectAnnotationsLast(props: Properties, t: AnnotationType, acc: OMap<string, Annotation>, key: string)
    ensures LastWins(props, AnnotatedKey(t), AnnotationIn(t), key, Get(acc, key), Get(CollectAnnotations(props, t, acc), key))
  {
    CollectAnnotationsPutsAll(props, t, acc);
    PutAllLast(props, AnnotationEntry(t), acc, key);
  }

  /** Collecting two lists of properties is collecting the first, then the
      second into the result. */
  lemma {:induction false} CollectAnnotationsAppend(a: Properties, b: Properties, t: AnnotationType, acc: OMap<string, Annotation>)
    ensures CollectAnnotations(a + b, t, acc) == CollectAnnotations(b, t, CollectAnnotations(a, t, acc))
    decreases |b|
  {
    if |b| == 0 {
      assert a + b == a;
    } else {
      var n := |b| - 1;
      assert (a + b)[..|a + b| - 1] == a + b[..n];
      assert (a + b)[|a + b| - 1] == b[n];
      CollectAnnotationsAppend(a, b[..n], t, acc);
    }
  }

  /** Once a property of `b` carries an annotation under `key`, what the
      map held under `key` before no longer matters. */
  lemma CollectAnnotationsOverride(b: Properties, t: AnnotationType, x: OMap<string, Annotation>, y: OMap<string, Annotation>, key: string)
    requires exists i :: 0 <= i < |b| && AnnotatedKey(t)(b[i]) == Some(key)
    ensures Get(CollectAnnotations(b, t, x), key) == Get(CollectAnnotations(b, t, y), key)
  {
    var i :| 0 <= i < |b| && AnnotatedKey(t)(b[i]) == Some(key);
    LastKeyedExists(b, AnnotatedKey(t), key, i);
    var j :| LastKeyed(b, AnnotatedKey(t), key, j);
    CollectAnnotationsLast(b, t, x, key);
    CollectAnnotationsLast(b, t, y, key);
  }

  /** The properties the climbing collection visits: the class's own, then
      those of each superclass below `Object`, nearest first. */
  function ChainProps(k: Klass): (r: Result<Properties>)
    ensures k.ObjectClass? ==> r == Err(NullPointer)
    ensures Discover(k).Err? ==> r == Err(Discover(k).error)
    ensures r.Ok? ==> Discover(k).Ok? && |Discover(k).value| <= |r.value| && r.value[..|Discover(k).value|] == Discover(k).value
  {
    var props :- Discover(k);
    match k
    case ObjectClass => Ok(props)
    case Klass(_, _, _, _, sup, _, _) =>
      if sup.ObjectClass? then Ok(props)
      else
        var rest :- ChainProps(sup);
        Ok(props + rest)
  }

  /** Climbing is one collection over the whole chain, the subclass's
      properties first: it fails with the first discovery failure met. */
  lemma {:induction false} ClimbCollects(k: Klass, t: AnnotationType, acc: OMap<string, Annotation>)
    ensures ChainProps(k).Err? ==> GetAnnotationsInto(k, t, acc, true) == Err(ChainProps(k).error)
    ensures ChainProps(k).Ok? ==> GetAnnotationsInto(k, t, acc, true) == Ok(CollectAnnotations(ChainProps(k).value, t, acc))
    decreases k
  {
    match Discover(k)
    case Err(_) =>
    case Ok(props) =>
      match k
      case ObjectClass =>
      case Klass(_, _, _, _, sup, _, _) =>
        if !sup.ObjectClass? {
          ClimbCollects(sup, t, CollectAnnotations(props, t, acc));
          match ChainProps(sup)
          case Err(_) =>
          case Ok(rest) => CollectAnnotationsAppend(props, rest, t, acc);
        }
  }

  /** After climbing, each name holds the annotation of the last property of
      that name along the chain that carries one, so a superclass's
      annotation replaces its subclass's; a name no property annotates keeps
      what `acc` held. */
  lemma ClimbLastWins(k: Klass, t: AnnotationType, acc: OMap<string, Annotation>, key: string)
    requires GetAnnotationsInto(k, t, acc, true).Ok?
    ensures ChainProps(k).Ok?
    ensures LastWins(ChainProps(k).value, AnnotatedKey(t), AnnotationIn(t), key, Get(acc, key),
                     Get(GetAnnotationsInto(k, t, acc, true).value, key))
  {
    ClimbCollects(k, t, acc);
    CollectAnnotationsLast(ChainProps(k).value, t, acc, key);
  }

  /** A name some superclass annotates gets the superclass's annotation,
      whatever the subclass put under it. */
  lemma SuperclassOverrides(k: Klass, t: AnnotationType, acc: OMap<string, Annotation>, key: string)
    requires k.Klass? && !k.superclass.ObjectClass? && GetAnnotationsInto(k, t, acc, true).Ok?
    requires ChainProps(k.superclass).Ok?
    requires exists i :: 0 <= i < |ChainProps(k.superclass).value| && AnnotatedKey(t)(ChainProps(k.superclass).value[i]) == Some(key)
    ensures GetAnnotationsInto(k.superclass, t, [], true).Ok?
    ensures Get(GetAnnotationsInto(k, t, acc, true).value, key) == Get(GetAnnotationsInto(k.superclass, t, [], true).value, key)
  {
    var props := Discover(k).value;
    var rest := ChainProps(k.superclass).value;
    ClimbCollects(k, t, acc);
    ClimbCollects(k.superclass, t, []);
    assert ChainProps(k).value == props + rest;
    CollectAnnotationsAppend(props, rest, t, acc);
    CollectAnnotationsOverride(rest, t, CollectAnnotations(props, t, acc), [], key);
  }

  /** The static `getAnnotations`: the annotation of each property of the
      class, then, when climbing, of each property of every superclass
      below `Object`, a superclass overriding what its subclass put. */
  function GetAnnotationsInto(k: Klass, t: AnnotationType, acc: OMap<string, Annotation>, climb: bool): (r: Result<OMap<string, Annotation>>)
    ensures k.ObjectClass? ==> r == Err(NullPointer)
    ensures Discover(k).Ok? && (!climb || k.superclass.ObjectClass?) ==> r == Ok(CollectAnnotations(Discover(k).value, t, acc))
  {
    var props :- Discover(k);
    var acc' := CollectAnnotations(props, t, acc);
    match k
    case ObjectClass => Ok(acc')
    case Klass(_, _, _, _, sup, _, _) =>
      if climb && !sup.ObjectClass? then GetAnnotationsInto(sup, t, acc', true) else Ok(acc')
  }

  /** What discovery keeps true of every entry: the helper's field has the
      entry's name; its getter and setter take no argument and one argument
      and denote that name with its first char lower-cased; and a helper
      without a field has an accessor, under a name that starts lower-case. */
  predicate NamedBy(key: string, h: Helper) {
    && (h.field.Some? ==> h.field.value.name == key)
    && (h.getter.Some? ==> PropertyNameOfMethod(h.getter.value.name) == Ok(LowerFirst(key)) && |h.getter.value.params| == 0)
    && (h.setter.Some? ==> PropertyNameOfMethod(h.setter.value.name) == Ok(LowerFirst(key)) && |h.setter.value.params| == 1)
    && (h.field.None? ==> LowerFirst(key) == key && (h.getter.Some? || h.setter.Some?))
  }

  predicate WellNamed(props: Properties) {
    UniqueKeys(props) && forall i :: 0 <= i < |props| ==> NamedBy(props[i].0, props[i].1)
  }

  lemma PutWellNamed(props: Properties, key: string, h: Helper)
    requires WellNamed(props) && NamedBy(key, h)
    ensures WellNamed(Put(props, key, h))
  {
    PutKeys(props, key, h);
  }

  lemma GetWellNamed(props: Properties, key: string)
    requires WellNamed(props) && Get(props, key).Some?
    ensures NamedBy(key, Get(props, key).value)
  {
  }

  lemma AddFieldHelperNamed(k: Klass, props: Properties, f: FieldDecl)
    requires WellNamed(props) && AddFieldHelper(k, props, f).Ok?
    ensures WellNamed(AddFieldHelper(k, props, f).value)
  {
    if !f.isStatic && !f.isFinal {
      var h := Helper(Some(f), None, None, f.ftype);
      PutWellNamed(props, f.name, h);
      var suffix := Capitalize(f.name);
      match GetMethod(k, "get" + suffix, [])
      case None =>
      case Some(getter) =>
        match GetMethod(k, "set" + suffix, [getter.returnType])
        case None =>
        case Some(setter) =>
          AccessorNameRoundTrip("get", f.name);
          AccessorNameRoundTrip("set", f.name);
          PutWellNamed(props, f.name, Helper(Some(f), Some(getter), Some(setter), f.ftype));
    }
  }

  lemma {:induction false} AddFieldHelpersNamed(k: Klass, props: Properties, fields: seq<FieldDecl>)
    requires WellNamed(props) && AddFieldHelpers(k, props, fields).Ok?
    ensures WellNamed(AddFieldHelpers(k, props, fields).value)
    decreases |fields|
  {
    if |fields| > 0 {
      AddFieldHelpersNamed(k, props, fields[..|fields| - 1]);
      AddFieldHelperNamed(k, AddFieldHelpers(k, props, fields[..|fields| - 1]).value, fields[|fields| - 1]);
    }
  }

  lemma {:induction false} FieldPassNamed(k: Klass, props: Properties)
    requires WellNamed(props) && FieldPass(k, props).Ok?
    ensures WellNamed(FieldPass(k, props).value)
  {
    match k
    case Klass(_, _, fields, _, sup, _, _) =>
      AddFieldHelpersNamed(k, props, fields);
      if !sup.ObjectClass? {
        FieldPassNamed(sup, AddFieldHelpers(k, props, fields).value);
      }
  }

  lemma AddMethodHelperNamed(k: Klass, props: Properties, m: MethodDecl)
    requires WellNamed(props) && AddMethodHelper(k, props, m).Ok?
    ensures WellNamed(AddMethodHelper(k, props, m).value)
  {
    var isGetter := StartsWith(m.name, "get") && |m.params| == 0;
    var isSetter := StartsWith(m.name, "set") && |m.params| == 1;
    if isGetter || isSetter {
      var pn := PropertyNameOfMethod(m.name).value;
      LowerFirstIdempotent(m.name[3..]);
      var field := GetField(k, pn);
      match Get(props, pn)
      case None =>
        var h := if isGetter then NewHelper(field, Some(m), None).value else NewHelper(field, None, Some(m)).value;
        PutWellNamed(props, pn, h);
      case Some(h) =>
        GetWellNamed(props, pn);
        PutWellNamed(props, pn, if isGetter then h.(getter := Some(m), field := field) else h.(setter := Some(m), field := field));
    }
  }

  lemma {:induction false} AddMethodHelpersNamed(k: Klass, props: Properties, ms: seq<MethodDecl>)
    requires WellNamed(props) && AddMethodHelpers(k, props, ms).Ok?
    ensures WellNamed(AddMethodHelpers(k, props, ms).value)
    decreases |ms|
  {
    if |ms| > 0 {
      AddMethodHelpersNamed(k, props, ms[..|ms| - 1]);
      AddMethodHelperNamed(k, AddMethodHelpers(k, props, ms[..|ms| - 1]).value, ms[|ms| - 1]);
    }
  }

  /** Every discovered map is keyed by exactly the name each helper reports,
      so `getName` of a helper finds it again in its class's map. */
  lemma DiscoveredNames(k: Klass)
    requires Discover(k).Ok?
    ensures WellNamed(Discover(k).value)
    ensures forall i :: 0 <= i < |Discover(k).value| ==>
      GetName(Discover(k).value[i].1) == Ok(Discover(k).value[i].0)
  {
    FieldPassNamed(k, []);
    AddMethodHelpersNamed(k, FieldPass(k, []).value, PublicMethods(k));
    var props := Discover(k).value;
    forall i | 0 <= i < |props| ensures GetName(props[i].1) == Ok(props[i].0) {
      assert NamedBy(props[i].0, props[i].1);
    }
  }

  /** Every discovered map holds the property `class`, which `getClass`
      contributes. */
  lemma DiscoveredHasClass(k: Klass)
    requires Discover(k).Ok?
    ensures HasKey(Discover(k).value, "class")
  {
    var ms := PublicMethods(k);
    var before := AddMethodHelpers(k, FieldPass(k, []).value, ms[..|ms| - 1]).value;
    assert Discover(k) == AddMethodHelper(k, before, GET_CLASS);
    GetClassNamesClass();
  }

  /** `getClass` is a getter of the property `class`. */
  lemma GetClassNamesClass()
    ensures IsAccessor(GET_CLASS) && PropertyNameOfMethod(GET_CLASS.name) == Ok("class")
  {
    assert StartsWith(GET_CLASS.name, "get");
    assert GET_CLASS.name[3..] == "Class" && ToLowerChar('C') == 'c';
    assert LowerFirst("Class") == ['c'] + "lass" == "class";
  }

  /** Discovery of a helper keeps its getter and setter on the same slot,
      so writing through a discovered read/write property and reading it
      back gives the value written, widened to the setter's parameter. */
  lemma SetThenGet(h: Helper, key: string, o: Obj, v: Value)
    requires NamedBy(key, h)
    requires h.getter.Some? && h.setter.Some? && h.getter.value != GET_CLASS
    requires h.getter.value.declaringClass in ChainNames(o.klass)
    requires h.setter.value.declaringClass in ChainNames(o.klass)
    requires Accepts(h.setter.value.params[0], v)
    ensures SetValue(h, o, v).Ok?
    ensures GetValue(h, SetValue(h, o, v).value) == Ok(Coerce(h.setter.value.params[0], v))
  {
  }

  /** The same for a property that is only a public field. */
  lemma SetThenGetField(h: Helper, o: Obj, v: Value)
    requires h.field.Some? && h.getter.None? && h.setter.None?
    requires h.field.value.declaringClass in ChainNames(o.klass)
    requires !(h.field.value.isStatic && h.field.value.isFinal)
    requires Accepts(h.field.value.ftype, v)
    ensures SetValue(h, o, v).Ok?
    ensures GetValue(h, SetValue(h, o, v).value) == Ok(Coerce(h.field.value.ftype, v))
  {
  }

  /** A property with only a getter ignores writes. */
  lemma ReadOnlyIgnoresWrites(h: Helper, o: Obj, v: Value)
    requires h.getter.Some? && h.field.None? && h.setter.None?
    ensures SetValue(h, o, v) == Ok(o)
  {
  }
}
