/** A property container over an insertion-ordered map of names to values. */
module MapBackedContainer {
  import opened Wrappers
  import opened JavaTypes
  import opened OrderedMaps

  datatype MapContainer = MapContainer(entries: OMap<string, Value>)

  /** The no-argument constructor's empty map. */
  const EMPTY: MapContainer := MapContainer([])

  /** `get`: the stored value, null for a missing name. */
  function GetProperty(c: MapContainer, name: string): (r: Value)
    ensures !HasKey(c.entries, name) ==> r == VNull
    ensures HasKey(c.entries, name) ==> Get(c.entries, name) == Some(r)
  {
    Get(c.entries, name).GetOr(VNull)
  }

  /** `set`: a `put` into the map. */
  function SetProperty(c: MapContainer, name: string, v: Value): (r: MapContainer)
    ensures |r.entries| == if HasKey(c.entries, name) then |c.entries| else |c.entries| + 1
  {
    MapContainer(Put(c.entries, name, v))
  }

  /** `getPropertyNames`: the keys in insertion order. */
  function PropertyNames(c: MapContainer): (r: seq<string>)
    ensures forall n :: n in r <==> HasKey(c.entries, n)
  {
    forall n ensures n in Keys(c.entries) <==> HasKey(c.entries, n) {
      HasKeyIff(c.entries, n);
    }
    Keys(c.entries)
  }

  /** `getPropertyType`: the runtime class of the stored value, which throws
      NullPointerException when the name is missing or holds null. */
  function PropertyType(c: MapContainer, name: string): (r: Result<JType>)
    ensures r.Err? <==> GetProperty(c, name).VNull?
    ensures r.Err? ==> r.error == NullPointer
    ensures r.Ok? ==> r == RuntimeClass(GetProperty(c, name))
  {
    match Get(c.entries, name)
    case None => Err(NullPointer)
    case Some(v) => RuntimeClass(v)
  }

  /** A write is seen by the next read of the same name and by no other. */
  lemma SetThenGet(c: MapContainer, name: string, v: Value, other: string)
    ensures GetProperty(SetProperty(c, name, v), other) == if other == name then v else GetProperty(c, other)
  {
    PutGet(c.entries, name, v, other);
  }

  /** A write adds its name last if it is new and keeps the order otherwise. */
  lemma SetNames(c: MapContainer, name: string, v: Value)
    ensures PropertyNames(SetProperty(c, name, v)) ==
      if name in PropertyNames(c) then PropertyNames(c) else PropertyNames(c) + [name]
  {
    PutKeys(c.entries, name, v);
  }

  /** The type reported after a write is the runtime class of the value. */
  lemma TypeAfterSet(c: MapContainer, name: string, v: Value)
    ensures PropertyType(SetProperty(c, name, v), name) == RuntimeClass(v)
  {
    PutGet(c.entries, name, v, name);
  }
}
