/** `CommaSeparatedLongs`: a list of `long`s read from text such as
    `"3,1,4"`, by splitting on commas and parsing each piece with
    `Long.parseLong`. Nothing is trimmed, so a blank or an empty middle
    piece is a NumberFormatException; `split` drops trailing empty pieces,
    so a trailing comma is harmless. */
module CommaSeparatedLongs {
  import opened Wrappers
  import opened JavaStrings
  import opened JavaNumbers

  datatype CommaSeparatedLongs = CommaSeparatedLongs(longs: seq<int>)

  /** The piece at `i` is the first that does not parse. */
  predicate FirstFailure(pieces: seq<string>, i: int) {
    0 <= i < |pieces| && ParseLong(pieces[i]).Err? && forall j :: 0 <= j < i ==> ParseLong(pieces[j]).Ok?
  }

  /** `Long.parseLong` of each piece in order; the first piece that does
      not parse ends the loop with its exception. */
  function ParseAll(pieces: seq<string>): (r: Result<seq<int>>)
    ensures r.Ok? <==> forall i :: 0 <= i < |pieces| ==> ParseLong(pieces[i]).Ok?
    ensures r.Ok? ==> |r.value| == |pieces| && forall i :: 0 <= i < |pieces| ==> ParseLong(pieces[i]) == Ok(r.value[i])
    ensures r.Err? ==> exists i :: FirstFailure(pieces, i) && r.error == NumberFormat(pieces[i])
    decreases |pieces|
  {
    if |pieces| == 0 then Ok([])
    else
      var x :- ParseLong(pieces[0]);
      var rest := ParseAll(pieces[1..]);
      if rest.Err? then
        assert exists i :: FirstFailure(pieces, i) && rest.error == NumberFormat(pieces[i]) by {
          var i :| FirstFailure(pieces[1..], i) && rest.error == NumberFormat(pieces[1..][i]);
          assert forall j :: 1 <= j < i + 1 ==> pieces[j] == pieces[1..][j - 1];
          assert FirstFailure(pieces, i + 1);
        }
        Err(rest.error)
      else
        Ok([x] + rest.value)
  }

  /** `parse(s)`. */
  function Parse(s: string): (r: Result<seq<int>>)
    ensures r.Ok? ==> forall i :: 0 <= i < |r.value| ==> InLong(r.value[i])
    ensures r.Err? ==> r.error.NumberFormat?
  {
    ParseAll(Split(s, ','))
  }

  /** The constructor stores what `parse` returns. */
  function New(s: string): (r: Result<CommaSeparatedLongs>)
    ensures r.Ok? <==> Parse(s).Ok?
    ensures r.Ok? ==> r.value.longs == Parse(s).value
  {
    var longs :- Parse(s);
    Ok(CommaSeparatedLongs(longs))
  }

  /** `FromStringConverter.convert(source)`: the constructor. */
  function Convert(source: string): (r: Result<CommaSeparatedLongs>)
    ensures r.Ok? <==> Parse(source).Ok?
    ensures r.Ok? ==> r.value.longs == Parse(source).value
    ensures r.Err? ==> r.error.NumberFormat?
  {
    New(source)
  }

  /** `Long.toString` of each number. */
  function Texts(xs: seq<int>): (r: seq<string>)
    ensures |r| == |xs|
    ensures forall i :: 0 <= i < |xs| ==> r[i] == IntToString(xs[i])
  {
    seq(|xs|, i requires 0 <= i < |xs| => IntToString(xs[i]))
  }

  /** A printed number holds no comma and is never empty. */
  lemma TextHasNoComma(x: int)
    ensures ',' !in IntToString(x) && IntToString(x) != ""
  {
  }

  lemma TextsHaveNoComma(xs: seq<int>)
    ensures forall i :: 0 <= i < |xs| ==> ',' !in Texts(xs)[i] && Texts(xs)[i] != ""
  {
    forall i | 0 <= i < |xs| ensures ',' !in Texts(xs)[i] && Texts(xs)[i] != "" {
      TextHasNoComma(xs[i]);
    }
  }

  /** Parsing each printed number gives it back. */
  lemma {:induction false} ParseAllTexts(xs: seq<int>)
    requires forall i :: 0 <= i < |xs| ==> InLong(xs[i])
    ensures ParseAll(Texts(xs)) == Ok(xs)
    decreases |xs|
  {
    if |xs| > 0 {
      var texts := Texts(xs);
      assert texts[0] == IntToString(xs[0]);
      assert texts[1..] == Texts(xs[1..]);
      ParseAllTexts(xs[1..]);
      ParseLongToString(xs[0]);
      assert ParseAll(texts) == Ok([xs[0]] + xs[1..]);
      assert [xs[0]] + xs[1..] == xs;
    }
  }

  /** Parsing the comma-joined printed numbers gives back the list. */
  lemma ParseRoundTrip(xs: seq<int>)
    requires |xs| > 0
    requires forall i :: 0 <= i < |xs| ==> InLong(xs[i])
    ensures Parse(Join(",", Texts(xs))) == Ok(xs)
  {
    TextsHaveNoComma(xs);
    SplitJoin(Texts(xs), ',');
    ParseAllTexts(xs);
  }

  /** Splitting comma-free, non-empty pieces joined with a trailing comma
      gives back the pieces. */
  lemma SplitTrailingComma(texts: seq<string>)
    requires |texts| > 0
    requires forall i :: 0 <= i < |texts| ==> ',' !in texts[i] && texts[i] != ""
    ensures Split(Join(",", texts) + ",", ',') == texts
  {
    var padded := texts + [""];
    var joined := Join(",", texts) + ",";
    assert Join(",", padded) == joined by {
      JoinAppend(",", texts, [""]);
    }
    assert SplitAll(joined, ',') == padded by {
      assert forall i :: 0 <= i < |padded| ==> ',' !in padded[i];
      SplitAllJoin(padded, ',');
    }
    assert ',' in joined by {
      assert joined[|joined| - 1] == ',';
    }
    assert Split(joined, ',') == DropTrailingEmpty(padded);
    assert padded[..|padded| - 1] == texts;
    assert DropTrailingEmpty(padded) == DropTrailingEmpty(texts);
    assert DropTrailingEmpty(texts) == texts;
  }

  /** A trailing comma changes nothing: `split` drops the empty last piece. */
  lemma TrailingCommaIgnored(xs: seq<int>)
    requires |xs| > 0
    requires forall i :: 0 <= i < |xs| ==> InLong(xs[i])
    ensures Parse(Join(",", Texts(xs)) + ",") == Ok(xs)
  {
    TextsHaveNoComma(xs);
    SplitTrailingComma(Texts(xs));
    ParseAllTexts(xs);
  }

  /** The empty string is one empty piece, which does not parse. */
  lemma EmptyFails()
    ensures Parse("") == Err(NumberFormat(""))
  {
    assert Split("", ',') == [""];
  }

  /** Pieces are not trimmed: a blank anywhere in the text fails. */
  lemma BlankFails(s: string, k: nat)
    requires k < |s| && s[k] == ' '
    ensures Parse(s).Err?
  {
    var pieces := Split(s, ',');
    SplitKeepsChars(s, ',', ' ');
    var j :| 0 <= j < |pieces| && ' ' in pieces[j];
    var m :| 0 <= m < |pieces[j]| && pieces[j][m] == ' ';
    ParseRejectsBlanks(pieces[j], m, LONG_MIN, LONG_MAX);
  }
}
