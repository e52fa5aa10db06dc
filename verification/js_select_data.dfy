/** `JSSelectData`: the options of a browser-side select box, as an
    `order` list of keys and a `labels` map from key to label, built from
    described map entries, from identified and described values, or one
    option at a time with `add`. */
module JSSelectData {
  import opened Wrappers
  import opened JavaTypes
  import opened OrderedMaps

  /** A label's three texts; each may be null. */
  datatype Label = Label(primary: Option<string>, secondary: Option<string>, tooltip: Option<string>)

  /** `Label.ANY`, the label of the "any" option. */
  const ANY: Label := Label(Some("(Any)"), None, Some("Matches any selection"))

  datatype SelectData = SelectData(labels: OMap<string, Label>, order: seq<string>)

  /** A `Described` object: its `getDescription()`. */
  datatype Described = Described(description: Option<string>)

  /** An `Identified & Described` value: `getId()` and `getDescription()`. */
  datatype IdDescribed = IdDescribed(id: Value, description: Option<string>)

  /** The label generated for an item: its description as the primary
      text, nothing else. */
  function ItemLabel(description: Option<string>): (l: Label)
    ensures l.primary == description && l.secondary.None? && l.tooltip.None?
  {
    Label(description, None, None)
  }

  /** The data before any item: the default option under the empty key
      when a default label is given, otherwise nothing. */
  function Start(defaultLabel: Option<Label>): (d: SelectData)
    ensures defaultLabel.Some? ==> d.order == [""] && Get(d.labels, "") == defaultLabel
    ensures defaultLabel.None? ==> d.order == [] && d.labels == []
  {
    match defaultLabel
    case None => SelectData([], [])
    case Some(l) => SelectData([("", l)], [""])
  }

  /** Appends the key to `order` and puts the label under it. */
  function AddLabel(d: SelectData, key: string, l: Label): (r: SelectData)
    ensures r.order == d.order + [key]
    ensures forall k :: Get(r.labels, k) == if k == key then Some(l) else Get(d.labels, k)
  {
    forall k ensures Get(Put(d.labels, key, l), k) == if k == key then Some(l) else Get(d.labels, k) {
      PutGet(d.labels, key, l, k);
    }
    SelectData(Put(d.labels, key, l), d.order + [key])
  }

  /** `add(id, primary, secondary, tooltip)`: the new label is returned and
      filed under the id, which is appended to the order. */
  function Add(d: SelectData, id: string, primary: Option<string>, secondary: Option<string>, tooltip: Option<string>): (r: (SelectData, Label))
    ensures r.1 == Label(primary, secondary, tooltip)
    ensures r.0.order == d.order + [id]
    ensures Get(r.0.labels, id) == Some(r.1)
    ensures forall k :: k != id ==> Get(r.0.labels, k) == Get(d.labels, k)
  {
    var l := Label(primary, secondary, tooltip);
    (AddLabel(d, id, l), l)
  }

  /** The label of the last entry with the key, if any. */
  function LastLabel(entries: seq<(string, Label)>, key: string): (r: Option<Label>)
    ensures r.None? <==> forall i :: 0 <= i < |entries| ==> entries[i].0 != key
    ensures r.Some? ==> exists i :: 0 <= i < |entries| && entries[i] == (key, r.value)
    decreases |entries|
  {
    if |entries| == 0 then None
    else if entries[|entries| - 1].0 == key then Some(entries[|entries| - 1].1)
    else
      var front := entries[..|entries| - 1];
      assert forall i :: 0 <= i < |front| ==> front[i] == entries[i];
      LastLabel(front, key)
  }

  /** Every entry in turn: its key appended to the order and its label put
      under the key, so a repeated key is listed again and keeps the last
      label. */
  function AddAll(d: SelectData, entries: seq<(string, Label)>): (r: SelectData)
    ensures |r.order| == |d.order| + |entries|
    ensures r.order[..|d.order|] == d.order
    ensures forall i :: 0 <= i < |entries| ==> r.order[|d.order| + i] == entries[i].0
    ensures forall k :: Get(r.labels, k) == if LastLabel(entries, k).Some? then LastLabel(entries, k) else Get(d.labels, k)
    decreases |entries|
  {
    if |entries| == 0 then d
    else
      var front := entries[..|entries| - 1];
      var last := entries[|entries| - 1];
      var before := AddAll(d, front);
      assert forall i :: 0 <= i < |front| ==> front[i] == entries[i];
      AddLabel(before, last.0, last.1)
  }

  /** The entries of `fromDescribed(Map, ...)`: each key's `toString()` with
      the label of its value's description. A null key or value is a
      NullPointerException. */
  function MapEntries(items: OMap<Value, Option<Described>>): (r: Result<seq<(string, Label)>>)
    ensures r.Err? <==> exists i :: 0 <= i < |items| && (items[i].0.VNull? || items[i].1.None?)
    ensures r.Err? ==> r.error == NullPointer
    ensures r.Ok? ==> |r.value| == |items| && forall i :: 0 <= i < |items| ==>
      Ok(r.value[i].0) == ToString(items[i].0) && r.value[i].1 == ItemLabel(items[i].1.value.description)
    decreases |items|
  {
    if |items| == 0 then Ok([])
    else
      var key :- ToString(items[0].0);
      if items[0].1.None? then Err(NullPointer)
      else
        var rest :- MapEntries(items[1..]);
        assert forall i :: 0 <= i < |items| - 1 ==> items[1..][i] == items[i + 1];
        Ok([(key, ItemLabel(items[0].1.value.description))] + rest)
  }

  /** The entries of `fromDescribed(T[], ...)`: each value's
      `getId().toString()` with the label of its description. A null value
      or id is a NullPointerException. */
  function ArrayEntries(values: seq<Option<IdDescribed>>): (r: Result<seq<(string, Label)>>)
    ensures r.Err? <==> exists i :: 0 <= i < |values| && (values[i].None? || values[i].value.id.VNull?)
    ensures r.Err? ==> r.error == NullPointer
    ensures r.Ok? ==> |r.value| == |values| && forall i :: 0 <= i < |values| ==>
      Ok(r.value[i].0) == ToString(values[i].value.id) && r.value[i].1 == ItemLabel(values[i].value.description)
    decreases |values|
  {
    if |values| == 0 then Ok([])
    else if values[0].None? then Err(NullPointer)
    else
      var key :- ToString(values[0].value.id);
      var rest :- ArrayEntries(values[1..]);
      assert forall i :: 0 <= i < |values| - 1 ==> values[1..][i] == values[i + 1];
      Ok([(key, ItemLabel(values[0].value.description))] + rest)
  }

  /** `fromDescribed(Map<?, T>, defaultLabel)`. */
  function FromDescribedMap(items: OMap<Value, Option<Described>>, defaultLabel: Option<Label>): (r: Result<SelectData>)
    ensures r.Ok? <==> MapEntries(items).Ok?
    ensures r.Ok? ==> r.value == AddAll(Start(defaultLabel), MapEntries(items).value)
  {
    var entries :- MapEntries(items);
    Ok(AddAll(Start(defaultLabel), entries))
  }

  /** `fromDescribed(T[], defaultLabel)`. */
  function FromDescribedArray(values: seq<Option<IdDescribed>>, defaultLabel: Option<Label>): (r: Result<SelectData>)
    ensures r.Ok? <==> ArrayEntries(values).Ok?
    ensures r.Ok? ==> r.value == AddAll(Start(defaultLabel), ArrayEntries(values).value)
  {
    var entries :- ArrayEntries(values);
    Ok(AddAll(Start(defaultLabel), entries))
  }

  /** The default option comes first exactly when a default label is
      given, and each item's key follows in iteration order. */
  lemma MapOrder(items: OMap<Value, Option<Described>>, defaultLabel: Option<Label>)
    requires FromDescribedMap(items, defaultLabel).Ok?
    ensures var d := FromDescribedMap(items, defaultLabel).value;
      var skip := if defaultLabel.Some? then 1 else 0;
      && |d.order| == skip + |items|
      && (defaultLabel.Some? ==> d.order[0] == "")
      && forall i :: 0 <= i < |items| ==> Ok(d.order[skip + i]) == ToString(items[i].0)
  {
  }

  /** A key given twice is listed twice while its label is the second one. */
  lemma DuplicateKeyListedTwice(d: SelectData, key: string, first: Label, second: Label)
    ensures AddAll(d, [(key, first), (key, second)]).order == d.order + [key, key]
    ensures Get(AddAll(d, [(key, first), (key, second)]).labels, key) == Some(second)
  {
    var r := AddAll(d, [(key, first), (key, second)]);
    assert r.order == d.order + [key, key];
  }

  /** Without a default label no option has the empty key unless an item's
      key prints as "". */
  lemma NoDefaultNoEmptyKey(values: seq<Option<IdDescribed>>)
    requires FromDescribedArray(values, None).Ok?
    requires forall i :: 0 <= i < |values| ==> ToString(values[i].value.id) != Ok("")
    ensures Get(FromDescribedArray(values, None).value.labels, "").None?
    ensures "" !in FromDescribedArray(values, None).value.order
  {
    var entries := ArrayEntries(values).value;
    var d := FromDescribedArray(values, None).value;
    assert LastLabel(entries, "").None?;
    assert forall i :: 0 <= i < |d.order| ==> d.order[i] == entries[i].0;
  }
}
