/** `Where`: a WHERE-clause builder that collects clause texts and joins
    them with `" AND "` or `" OR "`, and `inCollection`, which turns a
    collection of strings or numbers into an OR of equalities. */
module Where {
  import opened Wrappers
  import opened JavaStrings
  import opened JavaTypes

  datatype Where = Where(clauses: seq<string>, joiner: string)

  const AND_JOINER: string := " AND "
  const OR_JOINER: string := " OR "

  /** `Where.and()`: no clauses yet, joined by AND. */
  function And(): (w: Where)
    ensures w.clauses == [] && w.joiner == AND_JOINER
  {
    Where([], AND_JOINER)
  }

  /** `Where.or()`: no clauses yet, joined by OR. */
  function Or(): (w: Where)
    ensures w.clauses == [] && w.joiner == OR_JOINER
  {
    Where([], OR_JOINER)
  }

  /** `with(clauses...)`: the clauses are appended in argument order to the
      same builder, whose joiner does not change. */
  function With(w: Where, more: seq<string>): (r: Where)
    ensures r.joiner == w.joiner
    ensures |r.clauses| == |w.clauses| + |more|
    ensures r.clauses[..|w.clauses|] == w.clauses && r.clauses[|w.clauses|..] == more
  {
    Where(w.clauses + more, w.joiner)
  }

  /** `toString()`: the clauses joined by the joiner; no clauses give "". */
  function ToText(w: Where): (r: string)
    ensures |w.clauses| == 0 ==> r == ""
    ensures |w.clauses| == 1 ==> r == w.clauses[0]
  {
    Join(w.joiner, w.clauses)
  }

  /** Two `with` calls are one `with` of both argument lists. */
  lemma WithTwice(w: Where, a: seq<string>, b: seq<string>)
    ensures With(With(w, a), b) == With(w, a + b)
  {
    assert w.clauses + a + b == w.clauses + (a + b);
  }

  /** Adding clauses to a non-empty builder extends its text by the joiner
      and the new clauses joined the same way. */
  lemma WithExtendsText(w: Where, more: seq<string>)
    requires |w.clauses| > 0 && |more| > 0
    ensures ToText(With(w, more)) == ToText(w) + w.joiner + Join(w.joiner, more)
  {
    JoinAppend(w.joiner, w.clauses, more);
  }

  /** `"" + item` in Java: `toString()`, and "null" for null. */
  function Concatenated(v: Value): (r: string)
    ensures v.VNull? ==> r == "null"
    ensures !v.VNull? ==> Ok(r) == ToString(v)
  {
    if v.VNull? then "null" else ToString(v).value
  }

  /** One equality of `inCollection`: a string class is quoted (without
      escaping), a number class is written bare, anything else is refused. */
  function EqualityClause(columnName: string, item: Value, klass: JType): (r: Result<string>)
    ensures r.Err? <==> !Assignable(klass, TString) && !Assignable(klass, TNumber)
    ensures r.Err? ==> r.error == UnsupportedOperation
    ensures Assignable(klass, TString) ==> r == Ok(columnName + " = '" + Concatenated(item) + "'")
    ensures !Assignable(klass, TString) && Assignable(klass, TNumber) ==> r == Ok(columnName + " = " + Concatenated(item))
  {
    if Assignable(klass, TString) then Ok(columnName + " = '" + Concatenated(item) + "'")
    else if Assignable(klass, TNumber) then Ok(columnName + " = " + Concatenated(item))
    else Err(UnsupportedOperation)
  }

  /** `inCollection(columnName, items, klass)`: an OR builder given one
      equality per item in iteration order. The class is only inspected
      inside the loop, so an unsupported class fails at the first item and
      is accepted when there are no items. */
  function InCollection(columnName: string, items: seq<Value>, klass: JType): (r: Result<Where>)
    ensures r.Err? <==> |items| > 0 && !Assignable(klass, TString) && !Assignable(klass, TNumber)
    ensures r.Err? ==> r.error == UnsupportedOperation
    ensures r.Ok? ==> r.value.joiner == OR_JOINER && |r.value.clauses| == |items|
    ensures r.Ok? ==> forall i :: 0 <= i < |items| ==> EqualityClause(columnName, items[i], klass) == Ok(r.value.clauses[i])
  {
    if |items| == 0 then Ok(Or())
    else if !Assignable(klass, TString) && !Assignable(klass, TNumber) then Err(UnsupportedOperation)
    else
      Ok(With(Or(), seq(|items|, i requires 0 <= i < |items| => EqualityClause(columnName, items[i], klass).value)))
  }

  /** Any class is accepted for an empty collection, and the text is "". */
  lemma EmptyCollectionAccepted(columnName: string, klass: JType)
    ensures InCollection(columnName, [], klass) == Ok(Or())
    ensures ToText(InCollection(columnName, [], klass).value) == ""
  {
  }

  /** The text of a collection of strings: the quoted equalities joined by
      OR, in order. */
  lemma {:induction false} StringCollectionText(columnName: string, items: seq<Value>)
    requires |items| > 0
    ensures InCollection(columnName, items, TString).Ok?
    ensures ToText(InCollection(columnName, items, TString).value) ==
      Join(OR_JOINER, seq(|items|, i requires 0 <= i < |items| => columnName + " = '" + Concatenated(items[i]) + "'"))
  {
    var w := InCollection(columnName, items, TString).value;
    assert w.clauses == seq(|items|, i requires 0 <= i < |items| => columnName + " = '" + Concatenated(items[i]) + "'");
  }
}
