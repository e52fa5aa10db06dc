/** The two fixture enums of the mapper's unit test: `LongEnum` with ids 1,
    42 and -3000, and `StringEnum` with ids "FIRST", "SECOND" and "THIRD",
    and the mappers the test builds over them. */
module EnumFixtures {
  import opened JavaTypes
  import opened Enums
  import opened Converters
  import opened IdentifiedEnumMapper

  const LONG_ENUM: seq<EnumConstant> := [EnumConstant("A", VLong(1)), EnumConstant("B", VLong(42)), EnumConstant("C", VLong(-3000))]
  const STRING_ENUM: seq<EnumConstant> :=
    [EnumConstant("A", VString("FIRST")), EnumConstant("B", VString("SECOND")), EnumConstant("C", VString("THIRD"))]

  /** An environment that declares both fixture enums. */
  predicate Declares(env: Env) {
    Constants(env.enums, "LongEnum") == LONG_ENUM && Constants(env.enums, "StringEnum") == STRING_ENUM
  }

  /** A freshly built mapper with the given converter over the given
      constants, as the two-argument constructor leaves it. */
  function Fixture(conv: Converter, enumName: string, cs: seq<EnumConstant>): Mapper {
    Mapper(conv, ByCode(enumName, cs), enumName, false, VNull)
  }

  const LONG_MAPPER := Fixture(StringToLong, "LongEnum", LONG_ENUM)
  const STRING_MAPPER := Fixture(Identity, "StringEnum", STRING_ENUM)
}

/** What `setAsText` does with the texts the mapper's unit test feeds to the
    two fixture mappers, through the built-in converter table. */
module EnumMapperExamples {
  import opened Wrappers
  import opened JavaStrings
  import opened JavaNumbers
  import opened JavaTypes
  import opened OrderedMaps
  import opened Enums
  import opened Converters
  import opened IdentifiedEnumMapper
  import opened EnumFixtures

  /** `new IdentifiedEnumMapper(Long.class, LongEnum.class)` picks the
      built-in `String -> Long` converter and leaves the table alone. */
  lemma LongMapperBuilt(env: Env)
    requires Declares(env)
    ensures New(BUILT_IN, env, TLong, "LongEnum", false) == Ok((LONG_MAPPER, BUILT_IN))
  {
    BuiltInStringToLong();
  }

  /** `new IdentifiedEnumMapper(String.class, StringEnum.class)` uses the
      identity. */
  lemma StringMapperBuilt(env: Env)
    requires Declares(env)
    ensures New(BUILT_IN, env, TString, "StringEnum", false) == Ok((STRING_MAPPER, BUILT_IN))
  {
  }

  /* The examples below take the fixture mapper `m`, its constants `cs` and
     the text `t` as parameters pinned down by their requires, so that the
     solver does not unfold the table and `trim` on literals. */

  /** `m` is `LONG_MAPPER`. */
  predicate IsLongMapper(m: Mapper, cs: seq<EnumConstant>) {
    cs == LONG_ENUM && m == Fixture(StringToLong, "LongEnum", cs)
  }

  /** `m` is `STRING_MAPPER`. */
  predicate IsStringMapper(m: Mapper, cs: seq<EnumConstant>) {
    cs == STRING_ENUM && m == Fixture(Identity, "StringEnum", cs)
  }

  lemma LongFacts(cs: seq<EnumConstant>)
    requires cs == LONG_ENUM
    ensures DistinctIds(cs) && |cs| == 3
    ensures cs[0] == EnumConstant("A", VLong(1)) && cs[1] == EnumConstant("B", VLong(42)) && cs[2] == EnumConstant("C", VLong(-3000))
  {
  }

  lemma StringFacts(cs: seq<EnumConstant>)
    requires cs == STRING_ENUM
    ensures DistinctIds(cs) && |cs| == 3
    ensures cs[0] == EnumConstant("A", VString("FIRST")) && cs[1] == EnumConstant("B", VString("SECOND"))
    ensures cs[2] == EnumConstant("C", VString("THIRD"))
  {
  }

  /** The decimal text of an id is parsed back to it. */
  lemma LongIdText(env: Env, ext: (string, Value) -> Result<Value>, m: Mapper, cs: seq<EnumConstant>, i: nat, x: int, t: string)
    requires IsLongMapper(m, cs) && i < 3 && t == IntToString(x)
    requires x == if i == 0 then 1 else if i == 1 then 42 else -3000
    ensures SetAsText(env, ext, m, Some(t)) == Ok(m.(value := VEnum("LongEnum", cs[i].name)))
  {
    LongFacts(cs);
    LongIdRoundTrip(env, ext, m, cs, i, x);
  }

  lemma LongIdOne(env: Env, ext: (string, Value) -> Result<Value>, m: Mapper, cs: seq<EnumConstant>, t: string)
    requires IsLongMapper(m, cs) && t == "1"
    ensures SetAsText(env, ext, m, Some(t)) == Ok(m.(value := VEnum("LongEnum", "A")))
  {
    assert IntToString(1) == t;
    LongIdText(env, ext, m, cs, 0, 1, t);
  }

  /** A trailing blank is trimmed before parsing. */
  lemma LongIdTrailingBlank(env: Env, ext: (string, Value) -> Result<Value>, m: Mapper, cs: seq<EnumConstant>, t: string)
    requires IsLongMapper(m, cs) && t == "1"
    ensures SetAsText(env, ext, m, Some(t + " ")) == Ok(m.(value := VEnum("LongEnum", "A")))
  {
    LongIdOne(env, ext, m, cs, t);
    PaddingIgnored(env, ext, m, "", t, " ");
    assert "" + t + " " == t + " ";
  }

  lemma LongIdFortyTwo(env: Env, ext: (string, Value) -> Result<Value>, m: Mapper, cs: seq<EnumConstant>, t: string)
    requires IsLongMapper(m, cs) && t == "42"
    ensures SetAsText(env, ext, m, Some(t)) == Ok(m.(value := VEnum("LongEnum", "B")))
  {
    assert IntToString(42) == t;
    LongIdText(env, ext, m, cs, 1, 42, t);
  }

  /** So is a leading one. */
  lemma LongIdLeadingBlank(env: Env, ext: (string, Value) -> Result<Value>, m: Mapper, cs: seq<EnumConstant>, t: string)
    requires IsLongMapper(m, cs) && t == "42"
    ensures SetAsText(env, ext, m, Some(" " + t)) == Ok(m.(value := VEnum("LongEnum", "B")))
  {
    LongIdFortyTwo(env, ext, m, cs, t);
    PaddingIgnored(env, ext, m, " ", t, "");
    assert " " + t + "" == " " + t;
  }

  lemma LongIdNegative(env: Env, ext: (string, Value) -> Result<Value>, m: Mapper, cs: seq<EnumConstant>, t: string)
    requires IsLongMapper(m, cs) && t == "-3000"
    ensures SetAsText(env, ext, m, Some(t)) == Ok(m.(value := VEnum("LongEnum", "C")))
  {
    assert IntToString(-3000) == t;
    LongIdText(env, ext, m, cs, 2, -3000, t);
  }

  /** `LongEnum` declares no constant with a null id. */
  lemma LongTableHasNoNull(m: Mapper, cs: seq<EnumConstant>)
    requires IsLongMapper(m, cs)
    ensures Get(m.byCode, VNull).None?
  {
    LongFacts(cs);
    ByCodeMisses("LongEnum", cs, VNull);
  }

  /** Blank text converts to a null id, which names nothing. */
  lemma LongEmptyText(env: Env, ext: (string, Value) -> Result<Value>, m: Mapper, cs: seq<EnumConstant>, t: string)
    requires IsLongMapper(m, cs) && (t == "" || t == " ")
    ensures SetAsText(env, ext, m, Some(t)) == Ok(m.(value := VNull))
  {
    LongTableHasNoNull(m, cs);
    BlankLongTextGivesNull(env, ext, m, t);
  }

  /** 0 is no id of `LongEnum`. */
  lemma LongZeroText(env: Env, ext: (string, Value) -> Result<Value>, m: Mapper, cs: seq<EnumConstant>, t: string)
    requires IsLongMapper(m, cs) && t == "0"
    ensures SetAsText(env, ext, m, Some(t)) == Ok(m.(value := VNull))
  {
    LongFacts(cs);
    ByCodeGet("LongEnum", cs, VLong(0));
    assert IntToString(0) == t;
    NumberTextTrimmed(0);
    LongTextRoundTrip(env, ext, 0);
    UnknownIdGivesNull(env, ext, m, t);
  }

  /** An enum shaped like `StringEnum`: constants A, B and C whose ids are
      three distinct words without blanks at their ends. */
  predicate StringShaped(cs: seq<EnumConstant>, first: string, second: string, third: string) {
    && cs == [EnumConstant("A", VString(first)), EnumConstant("B", VString(second)), EnumConstant("C", VString(third))]
    && DistinctIds(cs)
    && HasNoPadding(first) && HasNoPadding(second) && HasNoPadding(third)
  }

  /** `StringEnum` is so shaped, with ids "FIRST", "SECOND" and "THIRD". */
  lemma StringEnumShaped(first: string, second: string, third: string)
    requires first == "FIRST" && second == "SECOND" && third == "THIRD"
    ensures StringShaped(STRING_ENUM, first, second, third)
  {
    StringEnumDistinct();
  }

  lemma StringEnumDistinct()
    ensures DistinctIds(STRING_ENUM)
  {
  }

  /** The string-id cases of the unit test, for any enum shaped like
      `StringEnum`: "FIRST" and "FIRST\t" name A, "  SECOND" names B and
      "THIRD" names C. */
  lemma StringIdsFound(env: Env, ext: (string, Value) -> Result<Value>, m: Mapper, cs: seq<EnumConstant>, first: string, second: string, third: string)
    requires m == Fixture(Identity, "StringEnum", cs) && StringShaped(cs, first, second, third)
    ensures SetAsText(env, ext, m, Some(first)) == Ok(m.(value := VEnum("StringEnum", "A")))
    ensures SetAsText(env, ext, m, Some(first + "\t")) == Ok(m.(value := VEnum("StringEnum", "A")))
    ensures SetAsText(env, ext, m, Some("  " + second)) == Ok(m.(value := VEnum("StringEnum", "B")))
    ensures SetAsText(env, ext, m, Some(third)) == Ok(m.(value := VEnum("StringEnum", "C")))
  {
    StringIdFound(env, ext, m, cs, 0, first);
    StringIdFound(env, ext, m, cs, 2, third);
    StringPadded(env, ext, m, cs, first, second, third);
  }

  lemma StringPadded(env: Env, ext: (string, Value) -> Result<Value>, m: Mapper, cs: seq<EnumConstant>, first: string, second: string, third: string)
    requires m == Fixture(Identity, "StringEnum", cs) && StringShaped(cs, first, second, third)
    ensures SetAsText(env, ext, m, Some(first + "\t")) == Ok(m.(value := VEnum("StringEnum", "A")))
    ensures SetAsText(env, ext, m, Some("  " + second)) == Ok(m.(value := VEnum("StringEnum", "B")))
  {
    StringTrailingTab(env, ext, m, cs, first, second, third);
    StringLeadingBlanks(env, ext, m, cs, first, second, third);
  }

  lemma StringTrailingTab(env: Env, ext: (string, Value) -> Result<Value>, m: Mapper, cs: seq<EnumConstant>, first: string, second: string, third: string)
    requires m == Fixture(Identity, "StringEnum", cs) && StringShaped(cs, first, second, third)
    ensures SetAsText(env, ext, m, Some(first + "\t")) == Ok(m.(value := VEnum("StringEnum", "A")))
  {
    assert "" + first + "\t" == first + "\t";
    StringIdRoundTrip(env, ext, m, cs, 0, "", first, "\t");
  }

  lemma StringLeadingBlanks(env: Env, ext: (string, Value) -> Result<Value>, m: Mapper, cs: seq<EnumConstant>, first: string, second: string, third: string)
    requires m == Fixture(Identity, "StringEnum", cs) && StringShaped(cs, first, second, third)
    ensures SetAsText(env, ext, m, Some("  " + second)) == Ok(m.(value := VEnum("StringEnum", "B")))
  {
    assert "  " + second + "" == "  " + second;
    StringIdRoundTrip(env, ext, m, cs, 1, "  ", second, "");
  }

  /** The table of such an enum has nothing under any other string. */
  lemma StringTableMisses(m: Mapper, cs: seq<EnumConstant>, first: string, second: string, third: string, u: string)
    requires m == Fixture(Identity, "StringEnum", cs) && StringShaped(cs, first, second, third)
    requires u != first && u != second && u != third
    ensures Get(m.byCode, VString(u)).None?
  {
    ByCodeMisses("StringEnum", cs, VString(u));
  }

  /** Text whose trimmed form is none of the ids leaves the value null. */
  lemma StringNoSuchId(env: Env, ext: (string, Value) -> Result<Value>, m: Mapper, cs: seq<EnumConstant>, first: string, second: string, third: string, t: string)
    requires m == Fixture(Identity, "StringEnum", cs) && StringShaped(cs, first, second, third)
    requires Trim(t) != first && Trim(t) != second && Trim(t) != third
    ensures SetAsText(env, ext, m, Some(t)) == Ok(m.(value := VNull))
  {
    StringTableMisses(m, cs, first, second, third, Trim(t));
    UnknownIdGivesNull(env, ext, m, t);
  }

  /** "", " " and "0", which the unit test feeds in, are none of
      `StringEnum`'s ids. */
  lemma StringTestMisses(t: string, first: string, second: string, third: string)
    requires t == "" || t == " " || t == "0"
    requires first == "FIRST" && second == "SECOND" && third == "THIRD"
    ensures Trim(t) != first && Trim(t) != second && Trim(t) != third
  {
    assert |Trim(t)| <= 1;
  }

  /** An id class with no conversion from `String` makes the constructor
      throw IllegalArgumentException. */
  lemma DummyIdRefused(env: Env)
    ensures New(BUILT_IN, env, TClass("Dummy"), "UnconvertibleIdentityEnum", false).Err?
    ensures New(BUILT_IN, env, TClass("Dummy"), "UnconvertibleIdentityEnum", false).error.IllegalArgument?
  {
    UnconvertibleIdRefused(env, "Dummy", "UnconvertibleIdentityEnum", false);
  }
}
