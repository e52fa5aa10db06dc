/** A property container over one Java object: named properties read and
    written through the object's discovered property helpers, with every
    failure of a read or write swallowed. */
module ObjectBackedContainer {
  import opened Wrappers
  import opened JavaTypes
  import opened OrderedMaps
  import opened Annotations
  import opened PropertyHelper

  datatype Container = Container(klass: Klass, properties: Properties, instance: Obj)

  /** A container is built from the discovered map of its instance's class. */
  predicate Consistent(c: Container) {
    c.instance.klass == c.klass && Discover(c.klass) == Ok(c.properties)
  }

  /** `fromClass`: the class's properties and a fresh instance; a class that
      cannot be instantiated is reported as a RuntimeException, while a
      failure of discovery escapes as it is. */
  function FromClass(k: Klass): (r: Result<Container>)
    ensures Discover(k).Err? ==> r == Err(Discover(k).error)
    ensures Discover(k).Ok? ==> (r.Ok? <==> !(k.Klass? && !k.instantiable))
    ensures r.Err? && Discover(k).Ok? ==> r.error.Runtime?
    ensures r.Ok? ==> Consistent(r.value) && r.value.instance.slots == map[]
  {
    var props :- Discover(k);
    var inst :- NewInstance(k).MapError(Runtime("Error creating container from class (No default constructor?)"));
    Ok(Container(k, props, inst))
  }

  /** The constructor over an existing object. */
  function FromInstance(o: Obj): (r: Result<Container>)
    ensures r.Ok? <==> Discover(o.klass).Ok?
    ensures r.Ok? ==> Consistent(r.value) && r.value.instance == o
  {
    var props :- Discover(o.klass);
    Ok(Container(o.klass, props, o))
  }

  /** `get`: the property's value, or null when there is no such property
      or reading it fails. */
  function GetProperty(c: Container, name: string): (r: Value)
    ensures Get(c.properties, name).None? ==> r == VNull
    ensures Get(c.properties, name).Some? && GetValue(Get(c.properties, name).value, c.instance).Ok? ==>
      r == GetValue(Get(c.properties, name).value, c.instance).value
    ensures Get(c.properties, name).Some? && GetValue(Get(c.properties, name).value, c.instance).Err? ==> r == VNull
  {
    match Get(c.properties, name)
    case None => VNull
    case Some(h) =>
      match GetValue(h, c.instance)
      case Ok(v) => v
      case Err(_) => VNull
  }

  /** `set`: writes the property; an unknown name or a failed write leaves
      the container as it was. */
  function SetProperty(c: Container, name: string, v: Value): (r: Container)
    ensures r.klass == c.klass && r.properties == c.properties
    ensures Get(c.properties, name).None? ==> r == c
    ensures Get(c.properties, name).Some? && SetValue(Get(c.properties, name).value, c.instance, v).Err? ==> r == c
    ensures Get(c.properties, name).Some? && SetValue(Get(c.properties, name).value, c.instance, v).Ok? ==>
      r.instance == SetValue(Get(c.properties, name).value, c.instance, v).value
  {
    match Get(c.properties, name)
    case None => c
    case Some(h) =>
      match SetValue(h, c.instance, v)
      case Ok(o) => c.(instance := o)
      case Err(_) => c
  }

  /** `getPropertyHelper(Method)`: the first helper that has the method as
      its getter or setter. */
  function HelperForMethod(c: Container, m: MethodDecl): (r: Option<Helper>)
    ensures r.Some? ==> r.value in Values(c.properties) && (r.value.getter == Some(m) || r.value.setter == Some(m))
    ensures r.None? ==> forall i :: 0 <= i < |c.properties| ==>
      c.properties[i].1.getter != Some(m) && c.properties[i].1.setter != Some(m)
  {
    FirstWithAccessor(c.properties, m)
  }

  function Values(props: Properties): (r: seq<Helper>)
    ensures |r| == |props| && forall i :: 0 <= i < |props| ==> r[i] == props[i].1
  {
    seq(|props|, i requires 0 <= i < |props| => props[i].1)
  }

  /** The helper has `m` as its getter or its setter. */
  predicate HasAccessor(h: Helper, m: MethodDecl) {
    h.getter == Some(m) || h.setter == Some(m)
  }

  /** The helper of the earliest entry that has `m` as an accessor. */
  function FirstWithAccessor(props: Properties, m: MethodDecl): (r: Option<Helper>)
    ensures r.Some? ==> r.value in Values(props) && (r.value.getter == Some(m) || r.value.setter == Some(m))
    ensures r.None? ==> forall i :: 0 <= i < |props| ==> props[i].1.getter != Some(m) && props[i].1.setter != Some(m)
  {
    if |props| == 0 then None
    else if props[0].1.getter == Some(m) || props[0].1.setter == Some(m) then Some(props[0].1)
    else
      var r := FirstWithAccessor(props[1..], m);
      assert r.Some? ==> r.value in Values(props) by {
        if r.Some? {
          var i :| 0 <= i < |props[1..]| && Values(props[1..])[i] == r.value;
          assert Values(props)[i + 1] == r.value;
        }
      }
      r
  }

  /** Entry `i` is the earliest with `m` as an accessor. */
  ghost predicate FirstAccessorAt(props: Properties, m: MethodDecl, i: int) {
    && 0 <= i < |props| && HasAccessor(props[i].1, m)
    && forall j :: 0 <= j < i ==> !HasAccessor(props[j].1, m)
  }

  /** When several helpers share the method, the earliest one in
      discovery order is the one found. */
  lemma {:induction false} FirstWithAccessorFirst(props: Properties, m: MethodDecl)
    ensures FirstWithAccessor(props, m).Some? ==>
      exists i :: FirstAccessorAt(props, m, i) && props[i].1 == FirstWithAccessor(props, m).value
  {
    if |props| > 0 {
      if HasAccessor(props[0].1, m) {
        assert FirstAccessorAt(props, m, 0);
      } else if FirstWithAccessor(props[1..], m).Some? {
        FirstWithAccessorFirst(props[1..], m);
        var i :| FirstAccessorAt(props[1..], m, i) && props[1..][i].1 == FirstWithAccessor(props[1..], m).value;
        assert props[i + 1] == props[1..][i];
        forall j | 0 <= j < i + 1 ensures !HasAccessor(props[j].1, m) {
          if j > 0 {
            assert props[j] == props[1..][j - 1];
          }
        }
        assert FirstAccessorAt(props, m, i + 1);
      }
    }
  }

  /** `getPropertyNames` and `iterator`: the property names in discovery
      order. */
  function PropertyNames(c: Container): (r: seq<string>)
    ensures forall n :: n in r <==> Get(c.properties, n).Some?
  {
    forall n ensures n in Keys(c.properties) <==> HasKey(c.properties, n) {
      HasKeyIff(c.properties, n);
    }
    Keys(c.properties)
  }

  /** `getPropertyType`: a NullPointerException for an unknown name. */
  function PropertyType(c: Container, name: string): (r: Result<JType>)
    ensures r.Err? <==> Get(c.properties, name).None?
    ensures r.Err? ==> r.error == NullPointer
    ensures r.Ok? ==> r.value == Get(c.properties, name).value.ptype
  {
    match Get(c.properties, name)
    case None => Err(NullPointer)
    case Some(h) => Ok(h.ptype)
  }

  /** `getAnnotation(name, type)`: a NullPointerException for an unknown
      name. */
  function AnnotationOf(c: Container, name: string, t: AnnotationType): (r: Result<Option<Annotation>>)
    ensures r.Err? <==> Get(c.properties, name).None?
    ensures r.Ok? ==> r.value == GetAnnotation(Get(c.properties, name).value, t)
  {
    match Get(c.properties, name)
    case None => Err(NullPointer)
    case Some(h) => Ok(GetAnnotation(h, t))
  }

  /** `getAnnotations(type, climb)`: the static collection into a fresh
      insertion-ordered map. */
  function AnnotationsOf(c: Container, t: AnnotationType, climb: bool): (r: Result<OMap<string, Annotation>>)
    ensures Consistent(c) && (!climb || c.klass.superclass.ObjectClass?) ==> r == Ok(CollectAnnotations(c.properties, t, []))
  {
    GetAnnotationsInto(c.klass, t, [], climb)
  }

  /** Climbing, each name ends up with the annotation of the last property
      of that name carrying one along the class and its superclasses, nearest
      class first: a superclass's annotation replaces the subclass's. */
  lemma AnnotationsOfClimbs(c: Container, t: AnnotationType, key: string)
    requires AnnotationsOf(c, t, true).Ok?
    ensures ChainProps(c.klass).Ok?
    ensures LastWins(ChainProps(c.klass).value, AnnotatedKey(t), AnnotationIn(t), key, None, Get(AnnotationsOf(c, t, true).value, key))
  {
    ClimbLastWins(c.klass, t, [], key);
  }

  /** Writing a read/write property of a consistent container and reading
      it back gives the value written, widened to the setter's parameter. */
  lemma SetThenGetProperty(c: Container, name: string, v: Value)
    requires Consistent(c)
    requires Get(c.properties, name).Some?
    requires var h := Get(c.properties, name).value;
      && h.getter.Some? && h.setter.Some? && h.getter.value != GET_CLASS
      && h.getter.value.declaringClass in ChainNames(c.klass)
      && h.setter.value.declaringClass in ChainNames(c.klass)
      && |h.setter.value.params| == 1 && Accepts(h.setter.value.params[0], v)
    ensures GetProperty(SetProperty(c, name, v), name) == Coerce(Get(c.properties, name).value.setter.value.params[0], v)
  {
    var h := Get(c.properties, name).value;
    DiscoveredNames(c.klass);
    GetWellNamed(c.properties, name);
    SetThenGet(h, name, c.instance, v);
  }

  /** Unknown names read as null and ignore writes. */
  lemma UnknownProperty(c: Container, name: string, v: Value)
    requires name !in PropertyNames(c)
    ensures GetProperty(c, name) == VNull
    ensures SetProperty(c, name, v) == c
    ensures PropertyType(c, name) == Err(NullPointer)
  {
  }
}
