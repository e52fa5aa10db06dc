# data-tools core in Dafny

This project models the decision logic at the heart of the `data-tools` Java
library (package `com.github.gregb`): the field-level merge and diff engine
that turns a stored entity and an updated one into column changes, the
schema a JDBC repository derives from an entity class, the converter
registry and enum-id tables that feed it, and the small string utilities
around them. Everything is stated as pure Dafny functions over immutable
values and checked by the verifier.

The modules follow the Java packages:

- `Wrappers`, `JavaStrings`, `JavaNumbers`, `JavaTypes`, `OrderedMaps`,
  `SortedStrings`: the Java and library behaviour the code relies on
  (`String.trim`, `Long.parseLong`, `Integer` wrap-around, class
  assignability, `LinkedHashMap` and `TreeMap` order).
- `CaseFormat`: Guava's lower-camel to lower-underscore and upper-camel to
  upper-underscore conversions, for ASCII text.
- `CopyBehavior`, `ColumnChange`, `DefaultOrder`, `Annotations`: the
  annotations and records of the `database` package.
- `Enums`, `Converters`, `IdentifiedEnumMapper`, `EnumFixtures`,
  `EnumMapperExamples`: converter resolution, the built-in converters, the
  enum id tables and the property editor for identified enums, with the
  fixtures of its unit test.
- `PropertyHelper`, `ObjectBackedContainer`, `MapBackedContainer`: property
  discovery over an abstract class description, accessor precedence, and
  the two property containers.
- `RowMappingRepository`, `EntityHelper`, `JdbcRepository`: column
  scanning, change scanning, the row mapper's per-column rule, the merge
  copier, statement texts, the default sort, the ORDER BY clause, the
  partial update and parameter conversion.
- `Where`, `CommaSeparatedLongs`, `JSSelectData`: the string utilities.

An entity is an `Obj` (its class and a map of slots); a slot never written
reads as the default of the property's type. A `Value` is the closed sum of
the Java values the code meets (`VNull`, strings, numbers, characters,
enums, decimals, other objects), with structural equality standing in for
`Objects.deepEquals`. Ordered Java maps are association sequences; the
converter registry is an ordered sequence of rows, so the "first
compatible converter" of `getConverter` is deterministic. Static caches
(the converter table's memo, the property-map cache, the row mapper's
converter map) are threaded through as explicit state. The converter memo
keeps a repeated identical query stable, but remembering one answer can
change the answer to a different later query, because the exact cell is
consulted before the search.

Where the code and its documentation disagree the model follows the code:

- `getConverter`'s fallback accepts a registered target that is a
  supertype of the requested one, not only a subtype.
- The field pass of property discovery climbs to superclasses after the
  subclass, so a superclass field of the same name replaces the subclass
  entry.
- `updateMerge` walks every discovered property of the update's class,
  including `class` and `@Transient` ones, not only the updatable columns.
- `scanForChanges` skips a property by its `@Column(updatable = false)`
  flag, not by membership in `updateList`, and it does not trim strings
  (only `updateMerge` does).
- `cleanUpEmptyStrings` is documented as returning a copy but mutates and
  returns its argument.
- `updateStatement` is always the empty string: the UPDATE text is
  appended to the INSERT builder after the INSERT statement was taken.
- `setupId` throws for two `@Id` properties although its warning says it
  uses the first (see Findings).

## Model

| member | source | states |
|---|---|---|
| CopyBehavior.Merged | src/main/java/com/github/gregb/database/CopyBehavior.java:24-61 | the copy receives nothing exactly under IGNORE; the newest value under TAKE_UPDATED, the original under TAKE_ORIGINAL, null under ALWAYS_NULL, and the newest unless it is null under MOST_RECENT_NON_NULL |
| CopyBehavior.MostRecentNeverNullifies | src/main/java/com/github/gregb/database/CopyBehavior.java:55-60 | MOST_RECENT_NON_NULL never turns a populated value into null, and it keeps the original only when the update is null or equal to it |
| CopyBehavior.MergedIdempotent | src/main/java/com/github/gregb/database/CopyBehavior.java:26-61 | merging the same update into an already merged value changes nothing, for every behaviour that writes |
| ColumnChange.Add | src/main/java/com/github/gregb/database/ColumnChange.java:23-35 | an A change from null to the new value, parameter named after the column, assignment `col = :col` |
| ColumnChange.Delete | src/main/java/com/github/gregb/database/ColumnChange.java:37-49 | a D change from the old value to null, parameter named after the column, assignment `col = NULL` |
| ColumnChange.Update | src/main/java/com/github/gregb/database/ColumnChange.java:51-64 | a U change keeping both values, parameter named after the column, assignment `col = :col` |
| DefaultOrder.DirectionName | src/main/java/com/github/gregb/database/JdbcRepository.java:177 | a direction prints as ASC or DESC, ASC exactly for ascending |
| DefaultOrder.CompareAsWritten | src/main/java/com/github/gregb/database/DefaultOrder.java:20-22 | the comparator's 32-bit difference stays an int and equals the true difference whenever that fits |
| DefaultOrder.Compare | src/main/java/com/github/gregb/database/DefaultOrder.java:20-22 | the intended comparator: negative, zero or positive exactly as the first order is smaller, equal or larger |
| DefaultOrder.AsWrittenAgreesWithoutOverflow | src/main/java/com/github/gregb/database/DefaultOrder.java:20-22 | without overflow the comparator as written has the sign of the intended one |
| DefaultOrder.AsWrittenCycle | src/main/java/com/github/gregb/database/DefaultOrder.java:20-22 | the comparator as written orders MIN_VALUE < 0 < 1 < MIN_VALUE, so it is not a total order |
| DefaultOrder.CompareTotalOrder | src/main/java/com/github/gregb/database/DefaultOrder.java:20-22 | the intended comparator is antisymmetric and transitive |
| CaseFormat.CamelToUnderscore | src/main/java/com/github/gregb/database/RowMappingRepository.java:277 | the underscore form is at least as long as the input and holds no letter of the wrong case |
| CaseFormat.ColumnNameOf | src/main/java/com/github/gregb/database/RowMappingRepository.java:277 | a property's conventional column name has no upper-case letter |
| CaseFormat.TableNameOf | src/main/java/com/github/gregb/database/JdbcRepository.java:81 | a class's conventional table name has no lower-case letter |
| CaseFormat.UnderscoreToCamel | src/main/java/com/github/gregb/database/RowMappingRepository.java:173 | the camel form is no longer than the input and has no underscore |
| CaseFormat.PropertyNameOf | src/main/java/com/github/gregb/database/RowMappingRepository.java:173 | a column's conventional property name has no underscore |
| CaseFormat.CamelRoundTrip | src/main/java/com/github/gregb/database/RowMappingRepository.java:277 | converting underscore-free camel text to underscores and back gives the text again |
| CaseFormat.ColumnNameRoundTrip | src/main/java/com/github/gregb/database/RowMappingRepository.java:277 | a lower-camel property name is recovered from its column name |
| CaseFormat.ColumnNameInjective | src/main/java/com/github/gregb/database/RowMappingRepository.java:277 | two lower-camel properties never share a conventional column |
| CaseFormat.ClassColumnName | src/main/java/com/github/gregb/database/RowMappingRepository.java:279-282 | the `class` property's column is `class`, so the skip at that line removes it |
| Annotations.FindAnnotation | src/main/java/com/github/gregb/mapping/PropertyHelper.java:304 | an element's annotation of a type is one it carries, and there is none exactly when it carries no annotation of that type |
| Enums.ValueOf | src/main/java/com/github/gregb/mapping/Converters.java:182-193 | `Enum.valueOf` succeeds exactly for a declared constant name and otherwise throws IllegalArgumentException |
| Enums.AddId | src/main/java/com/github/gregb/mapping/LongIdentifiedEnumMapper.java:11-13 | adding a constant to the (class, id) table fails with a null pointer exactly when its id is null |
| Enums.LookupId | src/main/java/com/github/gregb/mapping/LongIdentifiedEnumMapper.java:16-18 | a lookup with a null id finds nothing, and whatever it finds is a constant of the requested class |
| Enums.AddThenLookup | src/main/java/com/github/gregb/mapping/IntegerIdentifiedEnumMapper.java:11-18 | after adding, the added (class, id) finds the constant and every other key finds what it found before |
| Converters.WrapBoth | src/main/java/com/github/gregb/mapping/Converters.java:465-484 | the one-argument Wrapper puts the same text on both sides |
| Converters.Register | src/main/java/com/github/gregb/mapping/Converters.java:81-83 | registering keeps the table free of duplicate rows |
| Converters.RegisterCell | src/main/java/com/github/gregb/mapping/Converters.java:81-83 | after registering, the registered cell holds the converter and every other cell is unchanged |
| Converters.SearchColumns | src/main/java/com/github/gregb/mapping/Converters.java:100-115 | the column scan of one row answers with the cell of a compatible column, or no compatible column of that row exists |
| Converters.SearchRows | src/main/java/com/github/gregb/mapping/Converters.java:98-116 | the row scan answers with a compatible registered cell, or no listed row and column pair is compatible |
| Converters.FindCompatible | src/main/java/com/github/gregb/mapping/Converters.java:98-116 | the fallback search fails exactly when no registered cell has a row assignable from the source class and a column assignable from the target class |
| Converters.SearchColumnsFirst | src/main/java/com/github/gregb/mapping/Converters.java:102-116 | the converter a row scan returns sits at the first compatible column of that row: every earlier column is incompatible |
| Converters.SearchRowsFirst | src/main/java/com/github/gregb/mapping/Converters.java:101-116 | the converter the nested scan returns sits at the first compatible cell in row-major order: every earlier row has no compatible column and every earlier column of its row is incompatible |
| Converters.FindCompatibleFirst | src/main/java/com/github/gregb/mapping/Converters.java:98-116 | the fallback search over the whole table answers with the first compatible cell in `rowKeySet` x `columnKeySet` order |
| Converters.GetConverter | src/main/java/com/github/gregb/mapping/Converters.java:86-124 | identity for equal classes; an existing exact cell is returned unchanged; otherwise the first compatible cell in `rowKeySet` x `columnKeySet` order, remembered in the (source, target) cell; otherwise toString for a String target; null exactly when none applies; the only cell that can change is (source, target), and only to the answer |
| Converters.GetConverterMemo | src/main/java/com/github/gregb/mapping/Converters.java:110-113 | asking the same question again after the memo write gives the same converter and leaves the table as it is |
| ConverterMemoExamples.MemoChangesLaterAnswer | src/main/java/com/github/gregb/mapping/Converters.java:92-116 | on a concrete table, BigDecimal to String first resolves to the Object to Object converter; after Long to String has been asked, its remembered cell moves the String column ahead in `columnKeySet`, and the same question resolves to the Object to String converter: a memo write can change the answer to a different later query |
| ConverterMemoExamples.LongToText | src/main/java/com/github/gregb/mapping/Converters.java:98-116 | Long to String on that table finds the Object to Object converter and remembers it in the (Long, String) cell |
| Converters.EnumByName | src/main/java/com/github/gregb/mapping/Converters.java:182-193 | an enum name converts to the constant of that name, else to the constant of its upper-cased name, else fails with IllegalArgumentException |
| Converters.NarrowLong | src/main/java/com/github/gregb/mapping/Converters.java:228-234 | `Long.intValue` wraps the long into 32 bits |
| Converters.WidenInt | src/main/java/com/github/gregb/mapping/Converters.java:236-242 | an Integer widens to the same Long |
| Converters.ParseIntValue | src/main/java/com/github/gregb/mapping/Converters.java:244-250 | text converts to the Integer `Integer.parseInt` gives, or fails where it fails |
| Converters.ParseLongValue | src/main/java/com/github/gregb/mapping/Converters.java:260-269 | null or blank text gives null; other text is parsed untrimmed by `Long.parseLong` |
| Converters.NumberText | src/main/java/com/github/gregb/mapping/Converters.java:252-277 | Integer and Long print as their decimal text |
| Converters.DecimalToLong | src/main/java/com/github/gregb/mapping/Converters.java:431-437 | a BigDecimal converts to its integer part truncated toward zero, wrapped to 64 bits; null stays null |
| Converters.DecimalIntegerPart | src/main/java/com/github/gregb/mapping/Converters.java:431-437 | `longValue` keeps the sign of the decimal: never negative for a non-negative decimal, never positive for a non-positive one, and exact when the scale is not positive |
| Converters.DecimalHalves | src/main/java/com/github/gregb/mapping/Converters.java:431-437 | 2.5 and -2.5 convert to 2 and -2, so the fraction is dropped toward zero, not rounded |
| Converters.CharText | src/main/java/com/github/gregb/mapping/Converters.java:439-445 | a Character prints as the one-character string; null stays null |
| Converters.FirstChar | src/main/java/com/github/gregb/mapping/Converters.java:447-463 | a string converts to its first character, the empty string fails with an index error, null stays null |
| Converters.EnumById | src/main/java/com/github/gregb/mapping/Converters.java:126-147 | an id converts exactly when the id table holds a constant for it, and to that constant |
| Converters.LongTextRoundTrip | src/main/java/com/github/gregb/mapping/Converters.java:260-277 | LongToString followed by StringToLong gives back every long |
| Converters.LongTextPrinted | src/main/java/com/github/gregb/mapping/Converters.java:271-277 | LongToString prints the decimal text |
| Converters.LongTextParsedBack | src/main/java/com/github/gregb/mapping/Converters.java:260-269 | StringToLong reads a printed long back |
| Converters.LongTextParses | src/main/java/com/github/gregb/mapping/Converters.java:260-269 | the decimal text of any long parses back to it |
| Converters.IntTextParses | src/main/java/com/github/gregb/mapping/Converters.java:244-250 | the decimal text of any int parses back to it |
| Converters.IntTextRoundTrip | src/main/java/com/github/gregb/mapping/Converters.java:244-258 | IntegerToString followed by StringToInteger gives back every int |
| Converters.IntTextPrinted | src/main/java/com/github/gregb/mapping/Converters.java:252-258 | IntegerToString prints the decimal text |
| Converters.NarrowingKeepsInts | src/main/java/com/github/gregb/mapping/Converters.java:228-242 | LongToInteger keeps a long exactly when it fits an int, and undoes IntegerToLong |
| Converters.StringToLongBlanks | src/main/java/com/github/gregb/mapping/Converters.java:260-269 | blank text converts to null, but a non-blank text holding a space fails, because it is not trimmed |
| Converters.CharacterRoundTrip | src/main/java/com/github/gregb/mapping/Converters.java:439-463 | StringToCharacter undoes CharacterToString, keeps only the first character of longer text, and fails on empty text |
| Converters.EnumNameRoundTrip | src/main/java/com/github/gregb/mapping/Converters.java:172-226 | StringToEnum undoes EnumToString, falls back to the upper-cased name, and ObjectToStringToEnum reads a constant's name |
| Converters.IdConvertersFollowTables | src/main/java/com/github/gregb/mapping/Converters.java:126-170 | LongIdToEnum and IntegerIdToEnum succeed exactly when their tables hold the id, give that constant, and refuse null |
| Converters.WrapperSurrounds | src/main/java/com/github/gregb/mapping/Converters.java:465-484 | Wrapper gives left + toString + right, and fails exactly on null |
| Converters.DecimalTruncates | src/main/java/com/github/gregb/mapping/Converters.java:431-437 | BigDecimalToLong takes 2.5 to 2 and -2.5 to -2 |
| Converters.ExactHit | src/main/java/com/github/gregb/mapping/Converters.java:92-96 | a registered exact pair is returned and the table is untouched |
| Converters.BuiltInLocalDateToDate | src/main/java/com/github/gregb/mapping/Converters.java:47-79 | the built-in table converts LocalDate to java.sql.Date directly |
| Converters.BuiltInDateTimeToTimestamp | src/main/java/com/github/gregb/mapping/Converters.java:47-79 | the built-in table converts DateTime to Timestamp directly |
| Converters.BuiltInStringToLong | src/main/java/com/github/gregb/mapping/Converters.java:47-79 | the built-in table converts String to Long with StringToLong |
| Converters.NoConverterFromString | src/main/java/com/github/gregb/mapping/Converters.java:98-123 | with no Object row and no String cell for the class, there is no converter from String to a plain class |
| Converters.BuiltInNoConverter | src/main/java/com/github/gregb/mapping/Converters.java:47-123 | the built-in table has no converter from String to any plain class |
| Converters.EnumFoundViaBase | src/main/java/com/github/gregb/mapping/Converters.java:98-116 | an enum reaches the `Enum -> String` cell by the assignable fallback, and the memo then holds it under the enum's own class |
| Converters.BuiltInEnumToString | src/main/java/com/github/gregb/mapping/Converters.java:47-116 | with the built-in table every enum converts to String with EnumToString, memoised under its class |
| Converters.ApplyResultClass | src/main/java/com/github/gregb/mapping/Converters.java:126-484 | every built-in converter with a fixed result class returns either null or a value of exactly that class: Integer for the narrowing and int-parsing converters, Long for the widening, long-parsing and BigDecimal converters, String for toString, enum-name, number-text, character-text and Wrapper, Character for String to Character, the enum type for the four enum converters |
| Converters.ApplyKeepsNull | src/main/java/com/github/gregb/mapping/Converters.java:126-484 | every converter of this library, as opposed to a Joda or registered one, that succeeds on null returns null |
| IdentifiedEnumMapper.ByCodeGet | src/main/java/com/github/gregb/mapping/IdentifiedEnumMapper.java:38-44 | the table has an entry for exactly the ids some constant carries |
| IdentifiedEnumMapper.ByCode | src/main/java/com/github/gregb/mapping/IdentifiedEnumMapper.java:38-44 | the id table has no duplicate ids, at most one entry per constant, and every entry is a constant of the mapper's enum |
| IdentifiedEnumMapper.ByCodeFindsLast | src/main/java/com/github/gregb/mapping/IdentifiedEnumMapper.java:41-43 | an id maps to the last constant that carries it |
| IdentifiedEnumMapper.ByCodeFindsEach | src/main/java/com/github/gregb/mapping/IdentifiedEnumMapper.java:41-43 | with distinct ids every constant is found under its own id |
| IdentifiedEnumMapper.New | src/main/java/com/github/gregb/mapping/IdentifiedEnumMapper.java:27-48 | construction fails with IllegalArgumentException exactly when no String converter to the id class exists; otherwise the value is null and the table holds exactly the constants' ids |
| IdentifiedEnumMapper.SetAsText | src/main/java/com/github/gregb/mapping/IdentifiedEnumMapper.java:52-75 | null text changes nothing; otherwise only the value changes, to null or a constant of the table, and never to null when not-found throws |
| IdentifiedEnumMapper.PaddingIgnored | src/main/java/com/github/gregb/mapping/IdentifiedEnumMapper.java:58-59 | whitespace around the text does not change the outcome |
| IdentifiedEnumMapper.LongIdRoundTrip | src/main/java/com/github/gregb/mapping/IdentifiedEnumMapper.java:52-75 | a Long-id mapper given a constant's printed id selects that constant |
| IdentifiedEnumMapper.StringIdFound | src/main/java/com/github/gregb/mapping/IdentifiedEnumMapper.java:52-75 | a String-id mapper given a constant's id selects that constant |
| IdentifiedEnumMapper.KnownIdFound | src/main/java/com/github/gregb/mapping/IdentifiedEnumMapper.java:61-73 | text whose converted id is in the table selects the constant stored for it |
| IdentifiedEnumMapper.StringIdRoundTrip | src/main/java/com/github/gregb/mapping/IdentifiedEnumMapper.java:52-75 | a String-id mapper given a constant's id with any padding selects that constant |
| IdentifiedEnumMapper.UnknownIdGivesNull | src/main/java/com/github/gregb/mapping/IdentifiedEnumMapper.java:67-73 | an id not in the table sets null when not-found is tolerated |
| IdentifiedEnumMapper.BlankLongTextGivesNull | src/main/java/com/github/gregb/mapping/IdentifiedEnumMapper.java:58-73 | blank text for a Long-id mapper sets null |
| IdentifiedEnumMapper.ByCodeMisses | src/main/java/com/github/gregb/mapping/IdentifiedEnumMapper.java:41-43 | an id no constant carries is absent from the table |
| IdentifiedEnumMapper.UnknownIdThrows | src/main/java/com/github/gregb/mapping/IdentifiedEnumMapper.java:69-71 | an id not in the table throws IllegalArgumentException when not-found is fatal |
| IdentifiedEnumMapper.UnconvertibleIdRefused | src/main/java/com/github/gregb/mapping/IdentifiedEnumMapper.java:33-36 | the built-in table offers no converter to a plain id class, so construction fails |
| EnumMapperExamples.LongMapperBuilt | src/test/java/com/github/gregb/mapping/IdentifiedEnumMapperTest.java:41 | the Long fixture mapper gets StringToLong and the table of LongEnum |
| EnumMapperExamples.StringMapperBuilt | src/test/java/com/github/gregb/mapping/IdentifiedEnumMapperTest.java:42 | the String fixture mapper gets the identity and the table of StringEnum |
| EnumMapperExamples.LongIdOne | src/test/java/com/github/gregb/mapping/IdentifiedEnumMapperTest.java:68-70 | "1" selects LongEnum.A |
| EnumMapperExamples.LongIdTrailingBlank | src/test/java/com/github/gregb/mapping/IdentifiedEnumMapperTest.java:64-66 | "1 " selects LongEnum.A |
| EnumMapperExamples.LongIdFortyTwo | src/test/java/com/github/gregb/mapping/IdentifiedEnumMapperTest.java:72-74 | "42" selects LongEnum.B |
| EnumMapperExamples.LongIdLeadingBlank | src/test/java/com/github/gregb/mapping/IdentifiedEnumMapperTest.java:72-74 | " 42" selects LongEnum.B |
| EnumMapperExamples.LongIdNegative | src/test/java/com/github/gregb/mapping/IdentifiedEnumMapperTest.java:76-78 | "-3000" selects LongEnum.C |
| EnumMapperExamples.LongEmptyText | src/test/java/com/github/gregb/mapping/IdentifiedEnumMapperTest.java:52-58 | "" and " " set null |
| EnumMapperExamples.LongZeroText | src/test/java/com/github/gregb/mapping/IdentifiedEnumMapperTest.java:60-62 | "0" sets null, since no LongEnum constant has id 0 |
| EnumMapperExamples.StringIdsFound | src/test/java/com/github/gregb/mapping/IdentifiedEnumMapperTest.java:101-115 | "FIRST", "FIRST\t", "  SECOND" and "THIRD" select A, A, B and C |
| EnumMapperExamples.StringNoSuchId | src/test/java/com/github/gregb/mapping/IdentifiedEnumMapperTest.java:89-99 | text whose trimmed form is no id sets null |
| EnumMapperExamples.StringTestMisses | src/test/java/com/github/gregb/mapping/IdentifiedEnumMapperTest.java:89-99 | "", " " and "0" trim to no StringEnum id |
| EnumMapperExamples.DummyIdRefused | src/test/java/com/github/gregb/mapping/IdentifiedEnumMapperTest.java:118-122 | a mapper over an enum with `Dummy` ids cannot be built: IllegalArgumentException |
| PropertyHelper.GetMethod | src/main/java/com/github/gregb/mapping/PropertyHelper.java:243-244 | `getMethod` finds a public method with that name and parameter list, or proves there is none |
| PropertyHelper.GetField | src/main/java/com/github/gregb/mapping/PropertyHelper.java:276-288 | a field found by name up the class chain has that name |
| PropertyHelper.PropertyNameOfMethod | src/main/java/com/github/gregb/mapping/PropertyHelper.java:268-270 | an accessor name shorter than four characters throws; otherwise the property is the rest after the prefix with its first letter lowered |
| PropertyHelper.AccessorNameRoundTrip | src/main/java/com/github/gregb/mapping/PropertyHelper.java:240-270 | the accessor built from a field name leads back to that field name when it starts lower-case |
| PropertyHelper.NewHelper | src/main/java/com/github/gregb/mapping/PropertyHelper.java:39-61 | a helper needs a field, getter or usable setter; its type is the field's, else the getter's return, else the setter's parameter |
| PropertyHelper.GetName | src/main/java/com/github/gregb/mapping/PropertyHelper.java:351-369 | a helper with a field is named after it; one with no accessor at all throws |
| PropertyHelper.GetAnnotation | src/main/java/com/github/gregb/mapping/PropertyHelper.java:300-324 | the annotation comes from the field, else the setter, else the getter, and is absent only when none of them carries one |
| PropertyHelper.BehaviorOf | src/main/java/com/github/gregb/database/RowMappingRepository.java:210-211 | a property without @CopyBehavior behaves as MOST_RECENT_NON_NULL, otherwise as its annotation says |
| PropertyHelper.NewInstance | src/main/java/com/github/gregb/database/EntityHelper.java:132 | `newInstance` gives an empty object of the class, and fails exactly for a class that cannot be instantiated |
| PropertyHelper.InvokeGetter | src/main/java/com/github/gregb/mapping/PropertyHelper.java:109-111 | a getter can be invoked exactly on instances of its declaring class chain and with no parameters; `getClass` reports the class |
| PropertyHelper.InvokeSetter | src/main/java/com/github/gregb/mapping/PropertyHelper.java:133-135 | a setter succeeds exactly on an instance of its class chain with one parameter accepting the value, and touches only its own slot |
| PropertyHelper.ReadField | src/main/java/com/github/gregb/mapping/PropertyHelper.java:113-116 | a field reads its slot, or its type's default when never written |
| PropertyHelper.WriteField | src/main/java/com/github/gregb/mapping/PropertyHelper.java:137-140 | a field write succeeds unless the field is static final or refuses the value, and touches only its own slot |
| PropertyHelper.GetValue | src/main/java/com/github/gregb/mapping/PropertyHelper.java:108-119 | a value is read through the getter if there is one, else the field, else it throws |
| PropertyHelper.SetValue | src/main/java/com/github/gregb/mapping/PropertyHelper.java:132-147 | a value is written through the setter if there is one, else the field, else nothing happens |
| PropertyHelper.SetValueFrame | src/main/java/com/github/gregb/mapping/PropertyHelper.java:132-147 | a successful write changes only the helper's own slot, which then holds the stored value |
| PropertyHelper.Accessor | src/main/java/com/github/gregb/mapping/PropertyHelper.java:371-387 | the accessor function returns what `getValue` returns and turns any failure into a RuntimeException |
| PropertyHelper.AddFieldHelper | src/main/java/com/github/gregb/mapping/PropertyHelper.java:233-256 | one field step fails, with an index error, exactly for an instance field with an empty name; it keeps every property and can only add the field's own name |
| PropertyHelper.AddFieldHelpers | src/main/java/com/github/gregb/mapping/PropertyHelper.java:233-256 | the field loop fails, with an index error, exactly when some instance field has an empty name; it keeps every property and adds only names of the fields |
| PropertyHelper.Capitalize | src/main/java/com/github/gregb/mapping/PropertyHelper.java:240 | the accessor suffix is the field name with a first letter that is no longer lower case and the rest untouched; a name not starting lower case is kept |
| PropertyHelper.LowerFirst | src/main/java/com/github/gregb/mapping/PropertyHelper.java:268-270 | the first character loses its upper case and the rest is untouched; a name not starting upper case is kept |
| PropertyHelper.FieldPass | src/main/java/com/github/gregb/mapping/PropertyHelper.java:230-266 | the field pass over `Object` itself throws a null pointer |
| PropertyHelper.AddMethodHelper | src/main/java/com/github/gregb/mapping/PropertyHelper.java:182-220 | one method step fails, with an index error, exactly for a getter or setter whose name is shorter than four characters; it keeps every property, adds at most the accessor's property name, and always lists that name after an accessor |
| PropertyHelper.AddMethodHelpers | src/main/java/com/github/gregb/mapping/PropertyHelper.java:182-220 | the method loop fails, with an index error, exactly when some accessor name is too short; it keeps every property and adds only property names of the methods |
| PropertyHelper.PublicMethods | src/main/java/com/github/gregb/mapping/PropertyHelper.java:182 | the public methods of a class are its declared ones plus `getClass`, which comes last |
| PropertyHelper.GetClassNamesClass | src/main/java/com/github/gregb/mapping/PropertyHelper.java:182-200 | `getClass` is a getter whose property name is `class` |
| PropertyHelper.Discover | src/main/java/com/github/gregb/mapping/PropertyHelper.java:168-228 | discovery on `Object` itself throws a null pointer |
| PropertyHelper.GetFromClass | src/main/java/com/github/gregb/mapping/PropertyHelper.java:168-228 | a cached class answers from the cache; with a sound cache the answer is a fresh discovery and the cache stays sound |
| PropertyHelper.GetFromInstance | src/main/java/com/github/gregb/mapping/PropertyHelper.java:156-158 | a null instance throws; otherwise the answer is that of its class |
| PropertyHelper.GetAnnotationsInto | src/main/java/com/github/gregb/mapping/PropertyHelper.java:334-349 | the collection over `Object` throws; when discovery succeeds and no superclass is climbed, it adds each discovered property's annotation of the type to what was collected |
| PropertyHelper.CollectAnnotationsLast | src/main/java/com/github/gregb/mapping/PropertyHelper.java:337-344 | after one class's loop each name holds the annotation of the last property of that name carrying one, and what the map held before when none does |
| PropertyHelper.CollectAnnotationsAppend | src/main/java/com/github/gregb/mapping/PropertyHelper.java:337-347 | collecting two property lists in turn into one map is collecting their concatenation |
| PropertyHelper.CollectAnnotationsOverride | src/main/java/com/github/gregb/mapping/PropertyHelper.java:337-344 | once a property of the list carries an annotation under a name, what the map held under that name beforehand does not affect the result |
| PropertyHelper.ChainProps | src/main/java/com/github/gregb/mapping/PropertyHelper.java:334-349 | the properties the climb visits start with the class's own; the chain fails over `Object` and with the discovery failure of the class itself |
| PropertyHelper.ClimbCollects | src/main/java/com/github/gregb/mapping/PropertyHelper.java:334-349 | climbing fails exactly with the first discovery failure along the superclass chain, and otherwise is one collection over the class's properties followed by each superclass's below `Object` |
| PropertyHelper.ClimbLastWins | src/main/java/com/github/gregb/mapping/PropertyHelper.java:334-349 | after climbing, each name holds the annotation of the last property along the chain carrying one, so a superclass's annotation replaces its subclass's, and the map's earlier entry when none does |
| PropertyHelper.SuperclassOverrides | src/main/java/com/github/gregb/mapping/PropertyHelper.java:346-347 | a name some superclass annotates gets exactly what climbing from that superclass alone would give it, whatever the subclass put under it |
| PropertyHelper.DiscoveredNames | src/main/java/com/github/gregb/mapping/PropertyHelper.java:168-228 | every discovered property is stored under the name `getName` gives it |
| PropertyHelper.DiscoveredHasClass | src/main/java/com/github/gregb/mapping/PropertyHelper.java:182-200 | discovery always lists `class`, from `getClass` |
| PropertyHelper.SetThenGet | src/main/java/com/github/gregb/mapping/PropertyHelper.java:108-147 | reading a bean property back after writing it gives the written value, widened to the setter's type |
| PropertyHelper.SetThenGetField | src/main/java/com/github/gregb/mapping/PropertyHelper.java:113-140 | reading a field-only property back after writing it gives the written value, widened to the field's type |
| PropertyHelper.ReadOnlyIgnoresWrites | src/main/java/com/github/gregb/mapping/PropertyHelper.java:141-145 | a property with a getter but no setter and no field ignores writes |
| ObjectBackedContainer.FromClass | src/main/java/com/github/gregb/mapping/ObjectBackedPropertyContainer.java:29-39 | a discovery failure escapes as it is; an uninstantiable class gives RuntimeException; otherwise the container holds a fresh instance and the discovered map |
| ObjectBackedContainer.FromInstance | src/main/java/com/github/gregb/mapping/ObjectBackedPropertyContainer.java:53-57 | wrapping succeeds exactly when discovery on the instance's class does, and the container then holds that instance and the discovered map |
| ObjectBackedContainer.GetProperty | src/main/java/com/github/gregb/mapping/ObjectBackedPropertyContainer.java:60-74 | an unknown property or a failed read gives null; otherwise the helper's value |
| ObjectBackedContainer.SetProperty | src/main/java/com/github/gregb/mapping/ObjectBackedPropertyContainer.java:120-132 | an unknown property or a failed write leaves the container as it was; otherwise the instance is the written one |
| ObjectBackedContainer.HelperForMethod | src/main/java/com/github/gregb/mapping/ObjectBackedPropertyContainer.java:90-98 | the helper found has the method as getter or setter, and none is found only when no helper has it |
| ObjectBackedContainer.FirstWithAccessor | src/main/java/com/github/gregb/mapping/ObjectBackedPropertyContainer.java:90-98 | the helper found has the method as getter or setter, and none is found only when no helper has it |
| ObjectBackedContainer.FirstWithAccessorFirst | src/main/java/com/github/gregb/mapping/ObjectBackedPropertyContainer.java:90-98 | the helper found is the first one in the properties' iteration order that has the method as getter or setter |
| ObjectBackedContainer.PropertyNames | src/main/java/com/github/gregb/mapping/ObjectBackedPropertyContainer.java:105-107 | the names are exactly the discovered properties |
| ObjectBackedContainer.PropertyType | src/main/java/com/github/gregb/mapping/ObjectBackedPropertyContainer.java:110-113 | an unknown property throws a null pointer; otherwise its helper's type |
| ObjectBackedContainer.AnnotationOf | src/main/java/com/github/gregb/mapping/ObjectBackedPropertyContainer.java:76-78 | an unknown property throws; otherwise its helper's annotation |
| ObjectBackedContainer.AnnotationsOf | src/main/java/com/github/gregb/mapping/ObjectBackedPropertyContainer.java:80-84 | without climbing, or for a class directly under Object, the map holds each property's annotation of the type |
| ObjectBackedContainer.AnnotationsOfClimbs | src/main/java/com/github/gregb/mapping/ObjectBackedPropertyContainer.java:80-84 | climbing, each name maps to the annotation of the last property of that name carrying one along the class and its superclasses, so a superclass's annotation replaces the subclass's, and a name none annotates is absent |
| ObjectBackedContainer.SetThenGetProperty | src/main/java/com/github/gregb/mapping/ObjectBackedPropertyContainer.java:60-132 | `get` after `set` of a bean property gives the written value widened to the setter's type |
| ObjectBackedContainer.UnknownProperty | src/main/java/com/github/gregb/mapping/ObjectBackedPropertyContainer.java:60-132 | for an unknown name `get` gives null, `set` does nothing, `getPropertyType` throws |
| MapBackedContainer.GetProperty | src/main/java/com/github/gregb/mapping/MapBackedPropertyContainer.java:30-33 | a stored name gives its value, a missing name null |
| MapBackedContainer.SetProperty | src/main/java/com/github/gregb/mapping/MapBackedPropertyContainer.java:47-50 | a write adds an entry exactly when the name was new |
| MapBackedContainer.PropertyNames | src/main/java/com/github/gregb/mapping/MapBackedPropertyContainer.java:41-44 | the names are exactly the stored keys |
| MapBackedContainer.PropertyType | src/main/java/com/github/gregb/mapping/MapBackedPropertyContainer.java:58-61 | the type is the runtime class of the stored value, and a missing or null value throws a null pointer |
| MapBackedContainer.SetThenGet | src/main/java/com/github/gregb/mapping/MapBackedPropertyContainer.java:30-50 | after `set`, that name reads the new value and every other name what it read before |
| MapBackedContainer.SetNames | src/main/java/com/github/gregb/mapping/MapBackedPropertyContainer.java:41-50 | a new name is appended to the key order; an existing name keeps its place |
| MapBackedContainer.TypeAfterSet | src/main/java/com/github/gregb/mapping/MapBackedPropertyContainer.java:47-61 | after `set` the type is the runtime class of the written value |
| RowMappingRepository.MapProperty | src/main/java/com/github/gregb/database/RowMappingRepository.java:312-321 | mapping a property sends the property to its column and the column to its helper, adds the column to `insertList` when insertable and to `updateList` when also updatable, leaves every other entry as it was, and keeps the schema valid |
| RowMappingRepository.AutoStep | src/main/java/com/github/gregb/database/RowMappingRepository.java:276-295 | one step of the convention pass maps an auto-mapped property to its underscore column and that column to the property's helper, lists the column in both lists alike, and changes nothing for any other property |
| RowMappingRepository.AutoPass | src/main/java/com/github/gregb/database/RowMappingRepository.java:276-295 | the convention pass lists exactly the columns of auto-mapped properties, in both lists alike |
| RowMappingRepository.AutoPassColumnOf | src/main/java/com/github/gregb/database/RowMappingRepository.java:276-295 | after the convention pass a property is mapped to its underscore column exactly when it is auto-mapped, and is unmapped otherwise |
| RowMappingRepository.AutoPassByColumn | src/main/java/com/github/gregb/database/RowMappingRepository.java:276-295 | after the convention pass a column maps to the helper of the last auto-mapped property with that column name, and to nothing when there is none |
| RowMappingRepository.ColumnFor | src/main/java/com/github/gregb/database/RowMappingRepository.java:303-308 | a blank @Column name falls back to the conventional column name |
| RowMappingRepository.ColumnStep | src/main/java/com/github/gregb/database/RowMappingRepository.java:300-323 | one @Column entry maps its property to the annotation's column (or the underscore name when blank) and that column to the property's helper, whatever its insertable flag, and lists it in `insertList` if insertable and in `updateList` if also updatable |
| RowMappingRepository.ColumnPass | src/main/java/com/github/gregb/database/RowMappingRepository.java:298-323 | the @Column pass adds exactly the columns its entries name for each list |
| RowMappingRepository.ColumnPassColumnOf | src/main/java/com/github/gregb/database/RowMappingRepository.java:298-323 | after the @Column pass a property maps to the column of its last @Column entry, and keeps its earlier mapping when it has none |
| RowMappingRepository.ColumnPassByColumn | src/main/java/com/github/gregb/database/RowMappingRepository.java:298-323 | after the @Column pass a column maps to the helper of the property of the last @Column entry naming it, and keeps its earlier helper when none names it |
| RowMappingRepository.ScanColumns | src/main/java/com/github/gregb/database/RowMappingRepository.java:274-324 | the scan fails exactly when reading the @Column annotations fails; the lists hold exactly the auto-mapped columns plus the @Column ones by their flags, `updateList` within `insertList`, both sorted |
| RowMappingRepository.ScanColumnsColumnOf | src/main/java/com/github/gregb/database/RowMappingRepository.java:274-324 | in the finished schema a property with a @Column entry maps to that entry's column even when it is not insertable; a property with none maps to its underscore column exactly when it is auto-mapped |
| RowMappingRepository.ScanColumnsByColumn | src/main/java/com/github/gregb/database/RowMappingRepository.java:274-324 | in the finished schema a column named by a @Column entry maps to the helper of the last such entry's property, overriding the convention; otherwise to the helper of the last auto-mapped property with that underscore name; otherwise to nothing |
| RowMappingRepository.Decide | src/main/java/com/github/gregb/database/RowMappingRepository.java:213-265 | any change is well formed, carries the stored value as old, differs from it, is an add exactly from null and a delete exactly to null |
| RowMappingRepository.ReadOrNull | src/main/java/com/github/gregb/database/RowMappingRepository.java:206-207 | a missing entity reads as null; a failed read becomes a query-construction error |
| RowMappingRepository.EntryChange | src/main/java/com/github/gregb/database/RowMappingRepository.java:199-268 | a non-updatable column contributes nothing; a change is keyed by the property's name and is what the behaviour decides for the read values |
| RowMappingRepository.Scan | src/main/java/com/github/gregb/database/RowMappingRepository.java:196-272 | the result fails exactly when some column's step fails, is sorted by property name, and holds exactly the changes the columns produce |
| RowMappingRepository.ScanForChanges | src/main/java/com/github/gregb/database/RowMappingRepository.java:196-272 | every change is well formed and names a mapped column, keyed in property-name order |
| RowMappingRepository.EntryDeleteUnforced | src/main/java/com/github/gregb/database/RowMappingRepository.java:213-265 | a delete one entry records without the override is for that entry's own column, whose behaviour is TAKE_UPDATED or ALWAYS_NULL |
| RowMappingRepository.ScanForChangesNoOverride | src/main/java/com/github/gregb/database/RowMappingRepository.java:192-194 | the two-argument scan is the scan without the override, and every delete it records belongs to a TAKE_UPDATED or ALWAYS_NULL column, so a MOST_RECENT_NON_NULL column set to null is never deleted |
| RowMappingRepository.NeverChanged | src/main/java/com/github/gregb/database/RowMappingRepository.java:214-218 | IGNORE and TAKE_ORIGINAL never produce a change |
| RowMappingRepository.TakeUpdatedChanges | src/main/java/com/github/gregb/database/RowMappingRepository.java:219-234 | TAKE_UPDATED changes exactly when the values differ: delete to null, add from null, otherwise update |
| RowMappingRepository.MostRecentChanges | src/main/java/com/github/gregb/database/RowMappingRepository.java:235-247 | without override MOST_RECENT_NON_NULL changes exactly when the update is non-null and differs; add exactly from null, update otherwise |
| RowMappingRepository.DeleteOverride | src/main/java/com/github/gregb/database/RowMappingRepository.java:248-257 | with override a non-null to null transition deletes carrying the old value, null to null stays unchanged, a non-null update decides as without override |
| RowMappingRepository.AlwaysNullChanges | src/main/java/com/github/gregb/database/RowMappingRepository.java:259-264 | ALWAYS_NULL deletes exactly a non-null stored value, whatever the update |
| RowMappingRepository.DecideAgreesWithMerge | src/main/java/com/github/gregb/database/CopyBehavior.java:26-61 | without override a column changes exactly when the merged value would differ from the stored one, and to that merged value |
| RowMappingRepository.DecideSame | src/main/java/com/github/gregb/database/RowMappingRepository.java:213-265 | comparing a value with itself changes nothing, except ALWAYS_NULL on a non-null value |
| RowMappingRepository.DecideNullUpdate | src/main/java/com/github/gregb/database/RowMappingRepository.java:213-265 | a null update deletes a non-null value exactly under TAKE_UPDATED, ALWAYS_NULL, or MOST_RECENT_NON_NULL with override |
| RowMappingRepository.ScanSelf | src/main/java/com/github/gregb/database/RowMappingRepository.java:196-272 | scanning an entity against itself is empty exactly when every column step is empty, and a readable column's step is empty unless it is ALWAYS_NULL and non-null |
| RowMappingRepository.ScanNullUpdated | src/main/java/com/github/gregb/database/RowMappingRepository.java:206-207 | a null updated entity yields only deletes |
| RowMappingRepository.ScanSources | src/main/java/com/github/gregb/database/RowMappingRepository.java:199-223 | each change comes from an updatable mapped column, is keyed by its property's name and carries that column's name |
| RowMappingRepository.HelperAt | src/main/java/com/github/gregb/database/RowMappingRepository.java:75 | the helper of a column is its mapped property, if it has one |
| RowMappingRepository.EnumConverter | src/main/java/com/github/gregb/database/RowMappingRepository.java:82-100 | an enum property reads a String column by name, Integer or Long columns by id, an Object column by its text, and no other column class |
| RowMappingRepository.EnumConverterApplied | src/main/java/com/github/gregb/database/RowMappingRepository.java:82-100 | whatever an enum converter produces is a constant of that enum, whose runtime class is the enum |
| RowMappingRepository.SelectConverter | src/main/java/com/github/gregb/database/RowMappingRepository.java:74-116 | an unmapped column discards; an enum property takes its enum converter or throws; any other property takes `getConverter`'s answer, else the identity |
| RowMappingRepository.SelectConverterMemo | src/main/java/com/github/gregb/database/RowMappingRepository.java:74-116 | selecting again after the memo write gives the same converter and table |
| RowMappingRepository.EnumConverterGivesConstant | src/main/java/com/github/gregb/database/RowMappingRepository.java:82-100 | what an enum property's converter produces is a constant of the property's enum class |
| RowMappingRepository.BuildConverters | src/main/java/com/github/gregb/database/RowMappingRepository.java:58-71 | the build fails exactly when some column's selection throws; on success every column has a converter, only the row's columns get one, and unmapped ones discard |
| RowMappingRepository.BuildConvertersSelects | src/main/java/com/github/gregb/database/RowMappingRepository.java:58-71 | the converter stored for a column is the one `selectConverter` picks for that column's class, against the table as the earlier columns left it (the last column of a name wins) |
| RowMappingRepository.ConverterFor | src/main/java/com/github/gregb/database/RowMappingRepository.java:148-157 | a remembered converter is used; otherwise a fresh selection |
| RowMappingRepository.SetFailure | src/main/java/com/github/gregb/database/RowMappingRepository.java:164-188 | a write refused with IllegalArgumentException surfaces as a NullPointerException exactly when the refused value is null, because the error message asks it for its class; every other failed write is reported as a RuntimeException |
| RowMappingRepository.BlankIntoPrimitiveLong | src/main/java/com/github/gregb/database/RowMappingRepository.java:146-168 | a blank text column mapped to a `long` setter through `StringToLong` converts to null, the setter refuses it, and the row mapper fails with NullPointerException |
| RowMappingRepository.MapColumn | src/main/java/com/github/gregb/database/RowMappingRepository.java:131-176 | an unmapped column aborts with a null pointer as written or is skipped as intended; a null value writes nothing; a failed selection or conversion is the column's error; otherwise the converted value is set through the property's helper, which stores it in the property's slot, and no other slot changes |
| RowMappingRepository.MapColumns | src/main/java/com/github/gregb/database/RowMappingRepository.java:131-177 | mapping the columns of a row keeps the class and changes only the slots of the written columns |
| RowMappingRepository.MapColumnsWrites | src/main/java/com/github/gregb/database/RowMappingRepository.java:131-176 | after the loop, the slot of the last column written to it holds that column's value run through the converter chosen for it |
| RowMappingRepository.WrittenColumns | src/main/java/com/github/gregb/database/RowMappingRepository.java:146-147 | the written columns are exactly the mapped columns with a value |
| RowMappingRepository.MapRow | src/main/java/com/github/gregb/database/RowMappingRepository.java:121-189 | the converter map is built from the first row and kept; an uninstantiable class fails; the row fills a fresh instance of the class, touching only written slots |
| RowMappingRepository.MapRowWrites | src/main/java/com/github/gregb/database/RowMappingRepository.java:121-189 | a mapped row holds, in each written slot, the converted value of the last column written to it, starting from a fresh instance and the converter map the first row built |
| RowMappingRepository.SkipWritesOnly | src/main/java/com/github/gregb/database/RowMappingRepository.java:146-169 | with unmapped columns skipped, mapping a row is mapping its written columns alone |
| RowMappingRepository.ThrowNullFailsOnUnmapped | src/main/java/com/github/gregb/database/RowMappingRepository.java:133-138 | as written, any unmapped column aborts the row |
| RowMappingRepository.MappedRowsAgree | src/main/java/com/github/gregb/database/RowMappingRepository.java:133-146 | when every column is mapped the written and the corrected mapper agree |
| RowMappingRepository.UnmappedColumnThrows | src/main/java/com/github/gregb/database/RowMappingRepository.java:138 | as written, a one-column row whose column has no property throws a null pointer |
| RowMappingRepository.UnmappedColumnIgnored | src/main/java/com/github/gregb/database/RowMappingRepository.java:146-176 | corrected, that row yields the fresh instance untouched |
| EntityHelper.ToTrimmedOrNull | src/main/java/com/github/gregb/database/EntityHelper.java:80-96 | null, empty and whitespace-only give null; everything else gives its non-empty trimmed text, never "" |
| EntityHelper.ToTrimmedOrNullIdempotent | src/main/java/com/github/gregb/database/EntityHelper.java:80-96 | applying it twice is applying it once |
| EntityHelper.ToTrimmedOrNullKeeps | src/main/java/com/github/gregb/database/EntityHelper.java:89-95 | non-empty text without padding is kept as it is |
| EntityHelper.TrimmedValue | src/main/java/com/github/gregb/database/EntityHelper.java:141-143 | only string values are trimmed-or-nulled; others pass unchanged |
| EntityHelper.WriteEach | src/main/java/com/github/gregb/database/EntityHelper.java:134-180 | the copy loop keeps the target's class and touches no slot that no property writes |
| EntityHelper.WriteEachSlot | src/main/java/com/github/gregb/database/EntityHelper.java:134-180 | a property with a slot of its own ends holding what its step wrote, or the target's value when the step wrote nothing |
| EntityHelper.MergeValue | src/main/java/com/github/gregb/database/EntityHelper.java:138-179 | a property merges when both reads succeed, by its behaviour, with the updated value trimmed-or-nulled first |
| EntityHelper.UpdateMerge | src/main/java/com/github/gregb/database/EntityHelper.java:128-189 | any failure, null arguments included, is the one "Can't copy entity" error; the copy is of the stored entity's class and slots no property writes keep their defaults |
| EntityHelper.MergedProperty | src/main/java/com/github/gregb/database/EntityHelper.java:145-179 | each property's slot in the copy holds its merged value, or the default under IGNORE |
| EntityHelper.BlankUpdateKeepsStored | src/main/java/com/github/gregb/database/EntityHelper.java:138-173 | under MOST_RECENT_NON_NULL a blank updated string keeps the stored value; a non-blank one is written trimmed |
| EntityHelper.CleanString | src/main/java/com/github/gregb/database/EntityHelper.java:50-60 | a cleaned string is null exactly when it was null, blank, or trims to a listed null value; otherwise it is the trimmed text |
| EntityHelper.CleanStringIdempotent | src/main/java/com/github/gregb/database/EntityHelper.java:50-60 | cleaning twice is cleaning once |
| EntityHelper.CleanValue | src/main/java/com/github/gregb/database/EntityHelper.java:48-63 | non-String properties are untouched; a String property is written null or a clean non-listed text; a non-string value in it is a cast failure |
| EntityHelper.CleanUpEmptyStrings | src/main/java/com/github/gregb/database/EntityHelper.java:38-71 | null stays null; a failure is the one cleanup error; otherwise the same object's class is kept and only String property slots may change |
| EntityHelper.CleanedProperty | src/main/java/com/github/gregb/database/EntityHelper.java:48-63 | every String property of the cleaned object is null or trimmed, non-empty and not a listed null value |
| EntityHelper.AllAgree | src/main/java/com/github/gregb/database/EntityHelper.java:106-122 | the comparison loop passes exactly when every readable property has equal values |
| EntityHelper.AreEquivalent | src/main/java/com/github/gregb/database/EntityHelper.java:98-125 | null arguments throw, different classes are not equivalent, and equivalence holds exactly when every readable property agrees |
| EntityHelper.EquivalentReflexive | src/main/java/com/github/gregb/database/EntityHelper.java:98-125 | every entity is equivalent to itself |
| EntityHelper.EquivalentSymmetric | src/main/java/com/github/gregb/database/EntityHelper.java:98-125 | equivalence does not depend on argument order |
| JdbcRepository.SetupIdAsWritten | src/main/java/com/github/gregb/database/JdbcRepository.java:141-155 | as written, more than one @Id throws IllegalArgumentException; none assumes `id` with no column; one sets field and column |
| JdbcRepository.SetupId | src/main/java/com/github/gregb/database/JdbcRepository.java:141-155 | corrected, the first @Id property is used and its column looked up; none assumes `id` |
| JdbcRepository.SetupIdAgrees | src/main/java/com/github/gregb/database/JdbcRepository.java:141-155 | whenever the written code succeeds it agrees with the corrected one |
| JdbcRepository.TwoIdsThrow | src/main/java/com/github/gregb/database/JdbcRepository.java:144-150 | two @Id properties throw as written, while the corrected version uses the first |
| JdbcRepository.NullableText | src/main/java/com/github/gregb/database/JdbcRepository.java:82 | a missing column concatenates as "null" |
| JdbcRepository.TableName | src/main/java/com/github/gregb/database/JdbcRepository.java:80-81 | the table is @Table's name, else the simple class name in upper underscore case |
| JdbcRepository.Parameters | src/main/java/com/github/gregb/database/JdbcRepository.java:92 | every column becomes its named parameter `:col` |
| JdbcRepository.BuildStatements | src/main/java/com/github/gregb/database/JdbcRepository.java:79-114 | the select, insert and delete texts over the table, id column and sorted `insertList`, and an empty update statement |
| JdbcRepository.NoIdSelectsNull | src/main/java/com/github/gregb/database/JdbcRepository.java:82 | without @Id the select-by-id text reads `WHERE null = ?` |
| JdbcRepository.At | src/main/java/com/github/gregb/database/JdbcRepository.java:119-122 | the entry whose annotation compares equal to an order value, absent exactly when none does |
| JdbcRepository.AtSorted | src/main/java/com/github/gregb/database/JdbcRepository.java:119-122 | in a sorted map every entry is the one found for its order |
| JdbcRepository.PutOrdering | src/main/java/com/github/gregb/database/JdbcRepository.java:121 | `TreeMap.put` keeps the map sorted by order and adds no other order |
| JdbcRepository.PutOrderingAsWritten | src/main/java/com/github/gregb/database/JdbcRepository.java:119-121 | the put under the comparator as written adds at most one entry, and every entry afterwards is an old one or carries the put property |
| JdbcRepository.PutOrderingAgreesWithoutOverflow | src/main/java/com/github/gregb/database/DefaultOrder.java:20-22 | while no stored order differs from the new one by more than an `int` holds, the put under the comparator as written equals the put under the intended comparison |
| JdbcRepository.PutOrderingOverflow | src/main/java/com/github/gregb/database/DefaultOrder.java:20-22 | with orders `Integer.MAX_VALUE` and -1 the difference wraps: the put as written places MAX_VALUE first, the intended put places it last |
| JdbcRepository.PutOrderingAt | src/main/java/com/github/gregb/database/JdbcRepository.java:121 | after the put the order maps to the new property under the first annotation's direction; other orders keep their entries |
| JdbcRepository.FirstDirection | src/main/java/com/github/gregb/database/JdbcRepository.java:120-122 | an order has a kept direction exactly when some @DefaultOrder has that order |
| JdbcRepository.LastProperty | src/main/java/com/github/gregb/database/JdbcRepository.java:120-122 | an order has a kept property exactly when some @DefaultOrder has that order |
| JdbcRepository.Orderings | src/main/java/com/github/gregb/database/JdbcRepository.java:118-122 | the ordering map is sorted by order value |
| JdbcRepository.OrderingsAt | src/main/java/com/github/gregb/database/JdbcRepository.java:118-122 | an order value is present exactly when some property is annotated with it, and then holds the last such property with the first such annotation's direction |
| JdbcRepository.DefaultSort | src/main/java/com/github/gregb/database/JdbcRepository.java:116-138 | with no @DefaultOrder the sort is the id column ascending; otherwise the columns in order with their directions; an unmapped property is refused; never empty |
| JdbcRepository.ToOrders | src/main/java/com/github/gregb/database/JdbcRepository.java:124-130 | each ordering maps to its property's column and direction, and an unmapped property is refused |
| JdbcRepository.NewRepository | src/main/java/com/github/gregb/database/JdbcRepository.java:66-72 | construction succeeds exactly when column scanning, both annotation scans and the default sort succeed; the schema is valid, the sort non-empty, the update statement empty, and a found id column belongs to the id field |
| JdbcRepository.OrderItems | src/main/java/com/github/gregb/database/JdbcRepository.java:174-177 | each order lists as a space, its column, a space and its direction |
| JdbcRepository.OrderItemParts | src/main/java/com/github/gregb/database/JdbcRepository.java:174-177 | one item is a space, the order's column, a space and ASC or DESC |
| JdbcRepository.CurrentSort | src/main/java/com/github/gregb/database/JdbcRepository.java:159-165 | with no page or no page sort the current sort is the default one; otherwise the page orders come first and the default orders follow, nothing dropped |
| JdbcRepository.OrderByClause | src/main/java/com/github/gregb/database/JdbcRepository.java:167-179 | the clause starts with " ORDER BY"; with no order it is exactly that, with one order it is that followed by the order's item |
| JdbcRepository.ListOrders | src/main/java/com/github/gregb/database/JdbcRepository.java:170-179 | the loop with the first-item flag lists the items separated by "," |
| JdbcRepository.PageClause | src/main/java/com/github/gregb/database/JdbcRepository.java:181-186 | the LIMIT/OFFSET suffix is present exactly when a page was given |
| JdbcRepository.AppendOrderByClause | src/main/java/com/github/gregb/database/JdbcRepository.java:157-187 | the builder gains the ORDER BY clause of the current sort, then the page suffix |
| JdbcRepository.PageSortFirst | src/main/java/com/github/gregb/database/JdbcRepository.java:161-162 | with both a page sort and a default sort, the clause is the page's own clause, a "," and then the default orders |
| JdbcRepository.AutomaticConversion | src/main/java/com/github/gregb/database/RowMappingRepository.java:45-50 | exactly LocalDate and DateTime convert automatically, to java.sql.Date and Timestamp |
| JdbcRepository.EnumId | src/main/java/com/github/gregb/database/JdbcRepository.java:499-503 | an identified constant's id is the id it declares |
| JdbcRepository.ConvertParameterValue | src/main/java/com/github/gregb/database/JdbcRepository.java:480-526 | null stays null; an enum becomes an OTHER parameter holding its id or name; a class without automatic conversion passes through; otherwise the converter found is applied and a missing one throws |
| JdbcRepository.ExactCellConverts | src/main/java/com/github/gregb/database/JdbcRepository.java:512-525 | a date value whose conversion is registered directly converts exactly when that converter succeeds, leaving the table alone |
| JdbcRepository.BindChanges | src/main/java/com/github/gregb/database/JdbcRepository.java:339-341 | every change's parameter is bound, no other parameter changes |
| JdbcRepository.BindChangesBinds | src/main/java/com/github/gregb/database/JdbcRepository.java:339-341 | the parameter of the last change with a given name is bound to that change's new value as converted for the database |
| JdbcRepository.TrivialBindingSucceeds | src/main/java/com/github/gregb/database/JdbcRepository.java:339-341 | binding cannot fail when no new value needs an automatic conversion |
| JdbcRepository.Assignments | src/main/java/com/github/gregb/database/JdbcRepository.java:337 | the assignments are the changes' own, in map order |
| JdbcRepository.IdConvertsPlain | src/main/java/com/github/gregb/database/JdbcRepository.java:331 | the Long id parameter needs no conversion |
| JdbcRepository.UpdateParams | src/main/java/com/github/gregb/database/JdbcRepository.java:331-341 | `id` and every change's parameter are bound, and `id` holds the id unless a change overrides it |
| JdbcRepository.UpdateParamsBinds | src/main/java/com/github/gregb/database/JdbcRepository.java:331-341 | in the update parameters, each change's parameter holds its new value as converted for the database |
| JdbcRepository.PartialUpdate | src/main/java/com/github/gregb/database/JdbcRepository.java:315-360 | a null id is IllegalArgument, a missing row an access failure, a scan failure a query-construction error; nothing runs exactly when nothing changed; otherwise `UPDATE t SET a, b WHERE idcol = :id;` with the bound parameters |
| Where.And | src/main/java/com/github/gregb/database/Where.java:24-26 | a fresh AND clause list |
| Where.Or | src/main/java/com/github/gregb/database/Where.java:28-30 | a fresh OR clause list |
| Where.With | src/main/java/com/github/gregb/database/Where.java:16-22 | the new clauses are appended after the old ones, joiner kept |
| Where.ToText | src/main/java/com/github/gregb/database/Where.java:54-56 | no clause prints as "", one clause as itself |
| Where.WithTwice | src/main/java/com/github/gregb/database/Where.java:16-22 | two `with` calls equal one with both lists |
| Where.WithExtendsText | src/main/java/com/github/gregb/database/Where.java:16-56 | adding clauses extends the text by the joiner and the joined new clauses |
| Where.Concatenated | src/main/java/com/github/gregb/database/Where.java:37 | string concatenation prints null as "null" and anything else by `toString` |
| Where.EqualityClause | src/main/java/com/github/gregb/database/Where.java:36-47 | String classes give a quoted equality, Number classes a bare one, and any other class throws UnsupportedOperationException |
| Where.InCollection | src/main/java/com/github/gregb/database/Where.java:32-51 | an OR list with one equality per item; it throws exactly when an item exists and the class is unsupported |
| Where.EmptyCollectionAccepted | src/main/java/com/github/gregb/database/Where.java:32-51 | no items give an empty OR list for any class, printing "" |
| Where.StringCollectionText | src/main/java/com/github/gregb/database/Where.java:32-56 | a string collection prints as the quoted equalities joined by " OR " |
| CommaSeparatedLongs.ParseAll | src/main/java/com/github/gregb/util/CommaSeparatedLongs.java:26-29 | every piece parses, in order, or the first failure is a NumberFormatException of a piece |
| CommaSeparatedLongs.Parse | src/main/java/com/github/gregb/util/CommaSeparatedLongs.java:23-32 | parsed numbers fit in a long, and failure is a NumberFormatException |
| CommaSeparatedLongs.New | src/main/java/com/github/gregb/util/CommaSeparatedLongs.java:19-21 | the object holds what `parse` returns and fails when it fails |
| CommaSeparatedLongs.Convert | src/main/java/com/github/gregb/util/CommaSeparatedLongs.java:10-15 | the converter yields the parsed numbers and fails with NumberFormatException when parsing fails |
| CommaSeparatedLongs.ParseRoundTrip | src/main/java/com/github/gregb/util/CommaSeparatedLongs.java:23-32 | a non-empty list of longs printed and joined with commas parses back to itself |
| CommaSeparatedLongs.TrailingCommaIgnored | src/main/java/com/github/gregb/util/CommaSeparatedLongs.java:24 | a trailing comma is dropped by `split`, so it parses the same |
| CommaSeparatedLongs.EmptyFails | src/main/java/com/github/gregb/util/CommaSeparatedLongs.java:24-28 | empty text fails on the one empty piece `split` returns |
| CommaSeparatedLongs.BlankFails | src/main/java/com/github/gregb/util/CommaSeparatedLongs.java:24-28 | any text holding a space fails, because pieces are not trimmed |
| JSSelectData.ItemLabel | src/main/java/com/github/gregb/database/JSSelectData.java:43-44 | an item's label has its description as primary text and nothing else |
| JSSelectData.Start | src/main/java/com/github/gregb/database/JSSelectData.java:33-38 | a default label is listed first under the empty key; without one the data is empty |
| JSSelectData.AddLabel | src/main/java/com/github/gregb/database/JSSelectData.java:42-45 | the key is appended to the order and maps to the label; other keys keep theirs |
| JSSelectData.Add | src/main/java/com/github/gregb/database/JSSelectData.java:70-81 | the returned label holds the three texts, is stored under the id, which is appended to the order; other keys are unchanged |
| JSSelectData.LastLabel | src/main/java/com/github/gregb/database/JSSelectData.java:40-46 | the label a key ends with is the last one put for it, absent when never put |
| JSSelectData.AddAll | src/main/java/com/github/gregb/database/JSSelectData.java:40-46 | every key is appended in order, duplicates included, and each key holds its last label |
| JSSelectData.MapEntries | src/main/java/com/github/gregb/database/JSSelectData.java:40-46 | a null key or value throws a null pointer; otherwise each entry keys by `toString` with its description |
| JSSelectData.ArrayEntries | src/main/java/com/github/gregb/database/JSSelectData.java:59-65 | a null value or id throws a null pointer; otherwise each value keys by its id's text with its description |
| JSSelectData.FromDescribedMap | src/main/java/com/github/gregb/database/JSSelectData.java:31-49 | the data starts with the default label and adds every map entry; it fails exactly when an entry does |
| JSSelectData.FromDescribedArray | src/main/java/com/github/gregb/database/JSSelectData.java:51-68 | the data starts with the default label and adds every value; it fails exactly when a value does |
| JSSelectData.MapOrder | src/main/java/com/github/gregb/database/JSSelectData.java:31-49 | the order is the empty key if defaulted, then every entry's key in map order |
| JSSelectData.DuplicateKeyListedTwice | src/main/java/com/github/gregb/database/JSSelectData.java:60-64 | a repeated key is listed twice but keeps only the later label |
| JSSelectData.NoDefaultNoEmptyKey | src/main/java/com/github/gregb/database/JSSelectData.java:51-68 | without a default label and with no empty id, the empty key is neither listed nor labelled |

## Left out

- Joda-Time date conversions and converters added with `register` are applied through an opaque function parameter: their bodies are library code.
- Query execution (`findById`, `selectWhere`, `countAll`, `update`, `updateById`, `updatebyId`, `insert`, `deleteById`, `mapById`) and `buildParameterMapFromObject`/`buildParameterMapFromMap` are JDBC calls with no decision logic of their own; `partialUpdate` stops at the SQL text and parameters it would execute.
- `convertParameterValue` of a Collection or array builds a JDBC array through the connection (`makeJdbcArray`); the model's values hold no collections.
- The driver's coercion of a column value (`rs.getObject(column, type)` and its fallback) is not modelled: the column value is given.
- The row mapper's branch for entities that are themselves `PropertyContainer`s is left out; an unmapped column is either the written null pointer or skipped.
- `Class.forName` of a column class name is replaced by the class itself.
- Logging, `toString` methods, the `repositoriesByEntity` registry and the `test()` method.
- Concurrency: the static caches are threaded as state and never shared.
- Reflection order: a class lists its fields and public methods in a fixed order of the model's choosing, standing for the JVM's.
- `HashMap` iteration order is modelled as insertion order for the converter table, the `byCode` map and `propertiesByColumn` (src/main/java/com/github/gregb/database/RowMappingRepository.java:39). `scanForChanges` walks `propertiesByColumn` (line 199) into a `TreeMap` keyed by property name (line 197). One property can hold both its underscore column and a differently named `@Column`, when a superclass property of the same name carries the `@Column` that the climbing `getAnnotations` finds. For such a property, hash order decides which column's change survives under the property's name, and which column's failure is reported first. The model's `RowMappingRepository.Scan` walks `byColumn` in insertion order instead.
- Spring's `Sort.Order` rejects an empty property as well as a null one; only the null case arises from the code and only it is modelled.
- Exceptions are one sum type carrying the Java exception class (and message where the code fixes it); causes and stack traces are not kept.
- Guava's case conversions are modelled on ASCII letters only.
- `CommaSeparatedLongs` of a null text (a null pointer in `split`) is not modelled: the text is a Dafny string.
- The `Label` objects of `JSSelectData` are mutable and shared; the model returns them by value.
- `getPropertyHelper(name)` and `getInstance`/`setInstance` are plain field reads and writes.
- JdbcRepository.PartialUpdate: takes the stored row as a parameter rather than loading it, and binds the `id` parameter to the updated entity's id; `partialUpdate` binds the stored row's id, which equals it whenever the row was found by that id.
- JdbcRepository.NewRepository: uses the corrected `SetupId` (first `@Id`) rather than the throwing one.
- RowMappingRepository.ScanForChanges: states well-formedness and keying; what each column contributes is stated by `Scan`, `EntryChange` and the `Decide` lemmas.
- Converters.EnumByName: upper-cases ASCII letters only. Java's `String.toUpperCase()` follows the default locale and full Unicode case mapping ("ß" becomes "SS"; a Turkish locale maps "i" to "İ"), tables the model does not carry.
- Converters.ParseIntValue: accepts only the ASCII digits 0-9. `Integer.parseInt` accepts every Unicode decimal digit ("١٢" parses to 12); the digit tables are not modelled.
- Converters.ParseLongValue: accepts only the ASCII digits 0-9. `Long.parseLong` accepts every Unicode decimal digit; the digit tables are not modelled.
- PropertyHelper.PropertyNameOfMethod: lowers the fourth character by ASCII only, where `Character.toLowerCase` maps every Unicode upper-case letter; accessor names outside ASCII are not modelled.
- PropertyHelper.Capitalize: upper-cases the first character by ASCII only, where `Character.toUpperCase` maps every Unicode lower-case letter; field names outside ASCII are not modelled.
- PropertyHelper.LowerFirst: lowers the first character by ASCII only, where `Character.toLowerCase` maps every Unicode upper-case letter; property names outside ASCII are not modelled.
- Converters.FirstChar: takes the first character of a Dafny string, a Unicode scalar value. Java's `charAt(0)` takes the first UTF-16 code unit, which for a character outside the Basic Multilingual Plane is a lone high surrogate. Strings are modelled as sequences of scalar values, not of UTF-16 code units.
- SortedStrings.Below: orders strings by Unicode scalar value. `String.compareTo` orders by UTF-16 code unit, so a character outside the Basic Multilingual Plane sorts below U+E000-U+FFFF in Java and above them here. This reaches the order of `insertList`, `updateList` and the change map only for column and property names with such characters.
- JdbcRepository.PutOrdering: keys the ordering map by the intended comparison (`Integer.compare`), not by `DefaultOrder.Comparator`'s wrapping subtraction (see Findings). `PutOrderingAgreesWithoutOverflow` shows the two puts are equal while no two orders differ by more than an `int` holds. `PutOrderingOverflow` shows where they part. A `TreeMap` under the non-transitive comparator depends on its tree's shape, which is not modelled.
- JdbcRepository.PutOrderingAt: built on the corrected `PutOrdering`, so it describes the map as written only while no two orders overflow.
- JdbcRepository.Orderings: built on the corrected `PutOrdering`, so it describes the map as written only while no two orders overflow.
- JdbcRepository.OrderingsAt: built on the corrected `PutOrdering`, so it describes the map as written only while no two orders overflow.
- JdbcRepository.DefaultSort: built on the corrected `PutOrdering`, so it describes the sort as written only while no two orders overflow.
- JdbcRepository.NewRepository: its default sort is built on the corrected `PutOrdering`, as for `DefaultSort`.
- PropertyHelper.NewInstance: a new instance has every slot at its type's default. Constructors and field initialisers are not modelled, so the value an IGNORE property keeps in `EntityHelper.UpdateMerge` and `EntityHelper.MergedProperty` is the type default.
- PropertyHelper.InvokeGetter: a getter's body is a read of the slot its property name denotes. A getter that computes its result, or reads a field of another name, is not modelled. `PropertyHelper.SetThenGet`, `ObjectBackedContainer.SetThenGetProperty` and `EntityHelper.EquivalentReflexive` rest on this.
- PropertyHelper.InvokeSetter: a setter's body is a write of its property's slot. Validation, side effects and derived fields in a setter are not modelled.
- PropertyHelper.WriteField: a static field is a slot of the object written, not storage shared by the class and its other instances.
- EntityHelper.CleanUpEmptyStrings: a failure returns only the error. The Java method has already cleaned the String properties before the failing one in place on the caller's object, and that partial change is not modelled.

## Findings

| source | as written | input that shows it | evidently intended | confidence | as-written member | corrected member |
|---|---|---|---|---|---|---|
| src/main/java/com/github/gregb/database/DefaultOrder.java:20-22 | `o1.order() - o2.order()` in 32-bit arithmetic | orders `Integer.MIN_VALUE`, 0 and 1 compare MIN < 0 < 1 < MIN | a comparator consistent with the numeric order (`Integer.compare`) | not executed | DefaultOrder.AsWrittenCycle | DefaultOrder.CompareTotalOrder |
| src/main/java/com/github/gregb/database/RowMappingRepository.java:138 | `propertyHelper.getType()` is called before the null check at line 146 | a result set with a column no property maps | the column is skipped, as the null check and the PropertyContainer branch intend | not executed | RowMappingRepository.UnmappedColumnThrows | RowMappingRepository.UnmappedColumnIgnored |
| src/main/java/com/github/gregb/database/JdbcRepository.java:145-149 | `Iterables.getOnlyElement` over the `@Id` properties | an entity with two `@Id` properties | use the first `@Id` property, as the warning at line 149 says | not executed | JdbcRepository.TwoIdsThrow | JdbcRepository.SetupId |
