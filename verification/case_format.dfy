/** The three case conversions the repositories use to derive database
    names: property name to column name (lower camel to lower underscore),
    column name back to property name (lower underscore to lower camel) and
    entity class name to table name (upper camel to upper underscore).
    Word boundaries and case changes are ASCII only. */
module CaseFormat {
  import opened JavaStrings

  /** Camel case to underscore case. Every ASCII capital except one at the
      very start opens a new word and is preceded by `_`; every char is then
      put in the target case (`upper` for UPPER_UNDERSCORE). A capital at
      index 0 is not a boundary: the converter starts a fresh buffer when it
      meets the next boundary and returns the whole word when there is none. */
  function CamelToUnderscore(s: string, atStart: bool, upper: bool): (r: string)
    ensures |r| >= |s|
    ensures upper ==> forall k :: 0 <= k < |r| ==> !IsAsciiLower(r[k])
    ensures !upper ==> forall k :: 0 <= k < |r| ==> !IsAsciiUpper(r[k])
  {
    if |s| == 0 then ""
    else
      var c := if upper then ToUpperChar(s[0]) else ToLowerChar(s[0]);
      (if !atStart && IsAsciiUpper(s[0]) then "_" else "") + [c] + CamelToUnderscore(s[1..], false, upper)
  }

  /** `LOWER_CAMEL.to(LOWER_UNDERSCORE, s)`: the conventional column name of
      a property. */
  function ColumnNameOf(propertyName: string): (r: string)
    ensures |r| >= |propertyName|
    ensures forall k :: 0 <= k < |r| ==> !IsAsciiUpper(r[k])
  {
    CamelToUnderscore(propertyName, true, false)
  }

  /** `UPPER_CAMEL.to(UPPER_UNDERSCORE, s)`: the conventional table name of
      an entity class. */
  function TableNameOf(simpleName: string): (r: string)
    ensures |r| >= |simpleName|
    ensures forall k :: 0 <= k < |r| ==> !IsAsciiLower(r[k])
  {
    CamelToUnderscore(simpleName, true, true)
  }

  /** Underscore case to lower camel case: `_` is dropped, the char after it
      is upper-cased and every other char lower-cased. Splitting on `_`,
      lower-casing the first word and capitalising the others (empty words
      vanish) gives the same string. */
  function UnderscoreToCamel(s: string, capitalizeNext: bool): (r: string)
    ensures |r| <= |s|
    ensures forall k :: 0 <= k < |r| ==> r[k] != '_'
  {
    if |s| == 0 then ""
    else if s[0] == '_' then UnderscoreToCamel(s[1..], true)
    else [if capitalizeNext then ToUpperChar(s[0]) else ToLowerChar(s[0])] + UnderscoreToCamel(s[1..], false)
  }

  /** `LOWER_UNDERSCORE.to(LOWER_CAMEL, s)`: the property a column name
      denotes by convention. */
  function PropertyNameOf(columnName: string): (r: string)
    ensures forall k :: 0 <= k < |r| ==> r[k] != '_'
  {
    UnderscoreToCamel(columnName, false)
  }

  /** A property name that holds no `_` and does not start with a capital. */
  predicate IsLowerCamel(s: string) {
    '_' !in s && (|s| == 0 || !IsAsciiUpper(s[0]))
  }

  lemma {:induction false} CamelRoundTrip(s: string, atStart: bool)
    requires '_' !in s
    requires atStart && |s| > 0 ==> !IsAsciiUpper(s[0])
    ensures UnderscoreToCamel(CamelToUnderscore(s, atStart, false), false) == s
    decreases |s|
  {
    if |s| > 0 {
      var rest := CamelToUnderscore(s[1..], false, false);
      assert '_' !in s[1..] by {
        assert forall k :: 0 <= k < |s[1..]| ==> s[1..][k] == s[k + 1];
      }
      CamelRoundTrip(s[1..], false);
      var c := ToLowerChar(s[0]);
      if !atStart && IsAsciiUpper(s[0]) {
        assert CamelToUnderscore(s, atStart, false) == "_" + ([c] + rest);
        assert ToUpperChar(c) == s[0];
      } else {
        assert CamelToUnderscore(s, atStart, false) == [c] + rest;
        assert c == s[0];
      }
      assert [s[0]] + s[1..] == s;
    }
  }

  /** The conventional column name loses nothing: the property name comes
      back from it. */
  lemma ColumnNameRoundTrip(propertyName: string)
    requires IsLowerCamel(propertyName)
    ensures PropertyNameOf(ColumnNameOf(propertyName)) == propertyName
  {
    CamelRoundTrip(propertyName, true);
  }

  /** Hence two distinct lower-camel property names never share a
      conventional column. */
  lemma ColumnNameInjective(p: string, q: string)
    requires IsLowerCamel(p) && IsLowerCamel(q)
    requires ColumnNameOf(p) == ColumnNameOf(q)
    ensures p == q
  {
    ColumnNameRoundTrip(p);
    ColumnNameRoundTrip(q);
  }

  /** The property `class` (from `getClass`) keeps its name as a column. */
  lemma ClassColumnName()
    ensures ColumnNameOf("class") == "class"
  {
  }
}
