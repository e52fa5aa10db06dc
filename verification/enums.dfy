/** Enum classes as the mapping layer sees them: each enum's constants in
    declaration order with the id an `Identified` enum reports, `valueOf`,
    and the two global id tables that map an (enum class, id) pair to its
    constant, one for `Long` ids and one for `Integer` ids. */
module Enums {
  import opened Wrappers
  import opened JavaTypes
  import opened OrderedMaps

  /** An enum constant: its `name()` and, for an `Identified` enum, its
      `getId()`. */
  datatype EnumConstant = EnumConstant(name: string, id: Value)

  /** The constants of every enum class, by class name, as `values()`
      returns them. */
  type EnumEnv = map<string, seq<EnumConstant>>

  function Constants(env: EnumEnv, enumName: string): seq<EnumConstant> {
    if enumName in env then env[enumName] else []
  }

  predicate HasConstant(env: EnumEnv, enumName: string, name: string) {
    exists i :: 0 <= i < |Constants(env, enumName)| && Constants(env, enumName)[i].name == name
  }

  /** `Enum.valueOf(enumType, name)`: the constant with that exact name, or
      IllegalArgumentException. */
  function ValueOf(env: EnumEnv, enumName: string, name: string): (r: Result<Value>)
    ensures r.Ok? <==> HasConstant(env, enumName, name)
    ensures r.Ok? ==> r.value == VEnum(enumName, name)
    ensures r.Err? ==> r.error.IllegalArgument?
  {
    if HasConstant(env, enumName, name) then Ok(VEnum(enumName, name))
    else Err(IllegalArgument("No enum constant " + enumName + "." + name))
  }

  /** A `HashBasedTable<Class, id, Enum>` keyed by enum class and id. */
  type IdTable = OMap<(string, int), string>

  /** `add(e)`: files the constant under its class and id; Guava's table
      refuses a null id with NullPointerException. */
  function AddId(table: IdTable, enumName: string, constant: string, id: Option<int>): (r: Result<IdTable>)
    ensures r.Err? <==> id.None?
    ensures r.Err? ==> r.error == NullPointer
  {
    match id
    case None => Err(NullPointer)
    case Some(i) => Ok(Put(table, (enumName, i), constant))
  }

  /** `lookup(klass, id)`: the constant filed under that class and id, or
      null; a null id finds nothing. */
  function LookupId(table: IdTable, enumName: string, id: Option<int>): (r: Option<Value>)
    ensures id.None? ==> r.None?
    ensures r.Some? ==> r.value.VEnum? && r.value.enumName == enumName
  {
    match id
    case None => None
    case Some(i) =>
      match Get(table, (enumName, i))
      case None => None
      case Some(c) => Some(VEnum(enumName, c))
  }

  /** What `add` filed is what `lookup` finds, and an entry of one class or
      id never answers for another. */
  lemma AddThenLookup(table: IdTable, enumName: string, constant: string, id: int, otherEnum: string, otherId: int)
    ensures LookupId(AddId(table, enumName, constant, Some(id)).value, otherEnum, Some(otherId)) ==
      if (otherEnum, otherId) == (enumName, id) then Some(VEnum(enumName, constant))
      else LookupId(table, otherEnum, Some(otherId))
  {
    PutGet(table, (enumName, id), constant, (otherEnum, otherId));
  }
}
