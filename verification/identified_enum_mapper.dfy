/** `IdentifiedEnumMapper`: a property editor that turns text into the
    constant of an `Identified` enum whose id the text names. The text is
    trimmed, converted to the id class with the registry's `String -> id`
    converter, and looked up in a table of the enum's constants by id. */
module IdentifiedEnumMapper {
  import opened Wrappers
  import opened JavaStrings
  import opened JavaNumbers
  import opened JavaTypes
  import opened OrderedMaps
  import opened Enums
  import opened Converters

  /** The editor's state: the converter, the `byCode` table, the enum class,
      the `exceptionOnNotFound` switch and the current `getValue()`. */
  datatype Mapper = Mapper(
    converter: Converter,
    byCode: OMap<Value, Value>,
    enumName: string,
    exceptionOnNotFound: bool,
    value: Value)

  /** The `byCode` table after putting every constant under its id in
      declaration order; a later constant with the same id replaces an
      earlier one. */
  function ByCode(enumName: string, cs: seq<EnumConstant>): (r: OMap<Value, Value>)
    ensures |r| <= |cs| && UniqueKeys(r)
    ensures forall i :: 0 <= i < |r| ==> r[i].1.VEnum? && r[i].1.enumName == enumName
    decreases |cs|
  {
    if |cs| == 0 then []
    else
      var c := cs[|cs| - 1];
      var before := ByCode(enumName, cs[..|cs| - 1]);
      PutKeys(before, c.id, VEnum(enumName, c.name));
      Put(before, c.id, VEnum(enumName, c.name))
  }

  /** `byCode.get(id)` finds a constant exactly when some constant has that
      id. */
  lemma {:induction false} ByCodeGet(enumName: string, cs: seq<EnumConstant>, id: Value)
    ensures Get(ByCode(enumName, cs), id).Some? <==> exists i :: 0 <= i < |cs| && cs[i].id == id
    decreases |cs|
  {
    if |cs| > 0 {
      var n := |cs| - 1;
      var init := cs[..n];
      PutGet(ByCode(enumName, init), cs[n].id, VEnum(enumName, cs[n].name), id);
      ByCodeGet(enumName, init, id);
      if cs[n].id != id && exists i :: 0 <= i < |cs| && cs[i].id == id {
        var i :| 0 <= i < |cs| && cs[i].id == id;
        assert init[i].id == id;
      }
    }
  }

  /** What it finds is the last constant declared with that id: a later
      constant with the same id replaces an earlier one. */
  lemma {:induction false} ByCodeFindsLast(enumName: string, cs: seq<EnumConstant>, i: nat)
    requires i < |cs| && forall j :: i < j < |cs| ==> cs[j].id != cs[i].id
    ensures Get(ByCode(enumName, cs), cs[i].id) == Some(VEnum(enumName, cs[i].name))
    decreases |cs|
  {
    var n := |cs| - 1;
    var init := cs[..n];
    assert ByCode(enumName, cs) == Put(ByCode(enumName, init), cs[n].id, VEnum(enumName, cs[n].name));
    PutGet(ByCode(enumName, init), cs[n].id, VEnum(enumName, cs[n].name), cs[i].id);
    if i < n {
      assert init[i] == cs[i];
      ByCodeFindsLast(enumName, init, i);
    }
  }

  /** No two constants share an id. */
  predicate DistinctIds(cs: seq<EnumConstant>) {
    forall i, j :: 0 <= i < j < |cs| ==> cs[i].id != cs[j].id
  }

  /** With distinct ids every constant is found under its own id. */
  lemma ByCodeFindsEach(enumName: string, cs: seq<EnumConstant>, i: nat)
    requires DistinctIds(cs) && i < |cs|
    ensures Get(ByCode(enumName, cs), cs[i].id) == Some(VEnum(enumName, cs[i].name))
  {
    ByCodeFindsLast(enumName, cs, i);
  }

  /** The three-argument constructor: the `String -> id` converter must
      exist, else IllegalArgumentException; `byCode` is filled from
      `values()`. The registry is returned as the converter lookup leaves
      it. */
  function New(reg: Registry, env: Env, idClass: JType, enumName: string, exceptionOnNotFound: bool): (r: Result<(Mapper, Registry)>)
    ensures r.Err? <==> GetConverter(reg, TString, idClass).0.None?
    ensures r.Err? ==> r.error.IllegalArgument?
    ensures r.Ok? ==>
      && r.value.0.value == VNull && r.value.0.enumName == enumName
      && r.value.0.exceptionOnNotFound == exceptionOnNotFound
    ensures r.Ok? ==> forall id :: Get(r.value.0.byCode, id).Some? <==> exists i :: 0 <= i < |Constants(env.enums, enumName)| && Constants(env.enums, enumName)[i].id == id
  {
    var (conv, reg') := GetConverter(reg, TString, idClass);
    match conv
    case None => Err(IllegalArgument("Can't map enums when no converter exists for String --> id class"))
    case Some(c) =>
      var cs := Constants(env.enums, enumName);
      forall id ensures Get(ByCode(enumName, cs), id).Some? <==> exists i :: 0 <= i < |cs| && cs[i].id == id {
        ByCodeGet(enumName, cs, id);
      }
      Ok((Mapper(c, ByCode(enumName, cs), enumName, exceptionOnNotFound, VNull), reg'))
  }

  /** `setAsText(text)`: null is ignored; otherwise the trimmed text is
      converted to an id (a conversion failure escapes), the id is looked
      up, and the constant found, or null, becomes the value. With
      `exceptionOnNotFound` a null id or a missing constant is an
      IllegalArgumentException instead. */
  function SetAsText(env: Env, ext: (string, Value) -> Result<Value>, m: Mapper, text: Option<string>): (r: Result<Mapper>)
    ensures text.None? ==> r == Ok(m)
    ensures r.Ok? ==> r.value == m.(value := r.value.value)
    ensures r.Ok? && text.Some? ==> r.value.value.VNull? || exists i :: 0 <= i < |m.byCode| && m.byCode[i].1 == r.value.value
    ensures r.Ok? && text.Some? && m.exceptionOnNotFound ==> !r.value.value.VNull?
  {
    match text
    case None => Ok(m)
    case Some(t) =>
      var id :- Apply(env, ext, m.converter, VString(Trim(t)));
      if m.exceptionOnNotFound && id.VNull? then Err(IllegalArgument("Could not get an instance of the id class"))
      else
        var found := Get(m.byCode, id);
        if m.exceptionOnNotFound && found.GetOr(VNull).VNull? then Err(IllegalArgument("Invalid id for enum " + m.enumName))
        else Ok(m.(value := found.GetOr(VNull)))
  }

  /** Blanks around the text make no difference. */
  lemma PaddingIgnored(env: Env, ext: (string, Value) -> Result<Value>, m: Mapper, pre: string, s: string, post: string)
    requires forall k :: 0 <= k < |pre| ==> IsTrimmed(pre[k])
    requires forall k :: 0 <= k < |post| ==> IsTrimmed(post[k])
    ensures SetAsText(env, ext, m, Some(pre + s + post)) == SetAsText(env, ext, m, Some(s))
  {
    TrimIgnoresPadding(s, pre, post);
  }

  /** The decimal text of a number has no blanks to trim. */
  lemma NumberTextTrimmed(x: int)
    ensures Trim(IntToString(x)) == IntToString(x)
  {
    var s := IntToString(x);
    var d := NatToDigits(if x < 0 then -x else x);
    assert s[|s| - 1] == d[|d| - 1];
    StripLeadingFixed(s);
    StripTrailingFixed(s);
  }

  /** A mapper built over `Long` ids turns the text of each constant's id
      back into that constant. */
  lemma {:induction false} LongIdRoundTrip(env: Env, ext: (string, Value) -> Result<Value>, m: Mapper, cs: seq<EnumConstant>, i: nat, x: int)
    requires m.converter == StringToLong && m.byCode == ByCode(m.enumName, cs)
    requires DistinctIds(cs) && i < |cs| && cs[i].id == VLong(x) && InLong(x)
    ensures SetAsText(env, ext, m, Some(IntToString(x))) == Ok(m.(value := VEnum(m.enumName, cs[i].name)))
  {
    NumberTextTrimmed(x);
    LongTextRoundTrip(env, ext, x);
    ByCodeFindsEach(m.enumName, cs, i);
  }

  /** A mapper built over `String` ids turns each constant's id back into
      that constant. */
  lemma {:induction false} StringIdFound(env: Env, ext: (string, Value) -> Result<Value>, m: Mapper, cs: seq<EnumConstant>, i: nat, s: string)
    requires m.converter == Identity && m.byCode == ByCode(m.enumName, cs)
    requires DistinctIds(cs) && i < |cs| && cs[i].id == VString(s) && HasNoPadding(s)
    ensures SetAsText(env, ext, m, Some(s)) == Ok(m.(value := VEnum(m.enumName, cs[i].name)))
  {
    TrimFixedIff(s);
    ByCodeFindsEach(m.enumName, cs, i);
    KnownIdFound(env, ext, m, s, VString(s), VEnum(m.enumName, cs[i].name));
  }

  /** Text that converts to an id in the table selects that id's constant. */
  lemma KnownIdFound(env: Env, ext: (string, Value) -> Result<Value>, m: Mapper, t: string, id: Value, v: Value)
    requires Apply(env, ext, m.converter, VString(Trim(t))) == Ok(id)
    requires Get(m.byCode, id) == Some(v) && !v.VNull? && (m.exceptionOnNotFound ==> !id.VNull?)
    ensures SetAsText(env, ext, m, Some(t)) == Ok(m.(value := v))
  {
  }

  /** ... whatever blanks surround it. */
  lemma {:induction false} StringIdRoundTrip(env: Env, ext: (string, Value) -> Result<Value>, m: Mapper, cs: seq<EnumConstant>, i: nat, pre: string, s: string, post: string)
    requires m.converter == Identity && m.byCode == ByCode(m.enumName, cs)
    requires DistinctIds(cs) && i < |cs| && cs[i].id == VString(s) && HasNoPadding(s)
    requires forall k :: 0 <= k < |pre| ==> IsTrimmed(pre[k])
    requires forall k :: 0 <= k < |post| ==> IsTrimmed(post[k])
    ensures SetAsText(env, ext, m, Some(pre + s + post)) == Ok(m.(value := VEnum(m.enumName, cs[i].name)))
  {
    StringIdFound(env, ext, m, cs, i, s);
    PaddingIgnored(env, ext, m, pre, s, post);
  }

  /** Text that names no id leaves the value null, unless the mapper was
      told to throw. */
  lemma UnknownIdGivesNull(env: Env, ext: (string, Value) -> Result<Value>, m: Mapper, t: string)
    requires !m.exceptionOnNotFound
    requires Apply(env, ext, m.converter, VString(Trim(t))).Ok?
    requires Get(m.byCode, Apply(env, ext, m.converter, VString(Trim(t))).value).None?
    ensures SetAsText(env, ext, m, Some(t)) == Ok(m.(value := VNull))
  {
  }

  /** On a mapper over `Long` ids, blank text converts to a null id, and
      that names no constant unless one was declared with a null id. */
  lemma BlankLongTextGivesNull(env: Env, ext: (string, Value) -> Result<Value>, m: Mapper, t: string)
    requires m.converter == StringToLong && !m.exceptionOnNotFound && IsBlank(t)
    requires Get(m.byCode, VNull).None?
    ensures SetAsText(env, ext, m, Some(t)) == Ok(m.(value := VNull))
  {
    TrimIdempotent(t);
  }

  /** A table built from constants none of which has the id finds nothing
      under it. */
  lemma ByCodeMisses(enumName: string, cs: seq<EnumConstant>, id: Value)
    requires forall i :: 0 <= i < |cs| ==> cs[i].id != id
    ensures Get(ByCode(enumName, cs), id).None?
  {
    ByCodeGet(enumName, cs, id);
  }

  /** The same text with `exceptionOnNotFound` throws. */
  lemma UnknownIdThrows(env: Env, ext: (string, Value) -> Result<Value>, m: Mapper, t: string)
    requires m.exceptionOnNotFound
    requires Apply(env, ext, m.converter, VString(Trim(t))).Ok?
    requires Get(m.byCode, Apply(env, ext, m.converter, VString(Trim(t))).value).None?
    ensures SetAsText(env, ext, m, Some(t)).Err?
    ensures SetAsText(env, ext, m, Some(t)).error.IllegalArgument?
  {
  }

  /** An id class that no built-in conversion reaches from `String` is
      refused by the constructor. */
  lemma UnconvertibleIdRefused(env: Env, name: string, enumName: string, exc: bool)
    ensures New(BUILT_IN, env, TClass(name), enumName, exc).Err?
  {
    BuiltInNoConverter(name);
  }
}
