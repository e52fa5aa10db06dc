/** The parts of java.lang.String the modelled code relies on: `trim`,
    blank tests, ASCII case mapping, `String.join` and `split` with a
    one-character separator. */
module JavaStrings {

  /** `String.trim` removes every leading and trailing char at or below U+0020. */
  predicate IsTrimmed(c: char) {
    c <= ' '
  }

  function StripLeading(s: string): (r: string)
    ensures |r| <= |s| && r == s[|s| - |r|..]
    ensures |r| == 0 || !IsTrimmed(r[0])
    ensures forall k :: 0 <= k < |s| - |r| ==> IsTrimmed(s[k])
  {
    if |s| > 0 && IsTrimmed(s[0]) then StripLeading(s[1..]) else s
  }

  function StripTrailing(s: string): (r: string)
    ensures |r| <= |s| && r == s[..|r|]
    ensures |r| == 0 || !IsTrimmed(r[|r| - 1])
    ensures forall k :: |r| <= k < |s| ==> IsTrimmed(s[k])
  {
    if |s| > 0 && IsTrimmed(s[|s| - 1]) then StripTrailing(s[..|s| - 1]) else s
  }

  /** `String.trim()`. */
  function Trim(s: string): (r: string)
    ensures |r| == 0 || (!IsTrimmed(r[0]) && !IsTrimmed(r[|r| - 1]))
    ensures |r| <= |s|
  {
    StripTrailing(StripLeading(s))
  }

  /** `s.trim().length() == 0`. */
  predicate IsBlank(s: string) {
    |Trim(s)| == 0
  }

  lemma {:induction false} StripLeadingFixed(s: string)
    requires |s| == 0 || !IsTrimmed(s[0])
    ensures StripLeading(s) == s
  {
  }

  lemma {:induction false} StripTrailingFixed(s: string)
    requires |s| == 0 || !IsTrimmed(s[|s| - 1])
    ensures StripTrailing(s) == s
  {
  }

  /** No char at either end is one `trim` removes. */
  predicate HasNoPadding(s: string) {
    |s| == 0 || (!IsTrimmed(s[0]) && !IsTrimmed(s[|s| - 1]))
  }

  /** `trim` leaves a string alone exactly when it has no padding. */
  lemma TrimFixedIff(s: string)
    ensures Trim(s) == s <==> HasNoPadding(s)
  {
    if HasNoPadding(s) {
      StripLeadingFixed(s);
      StripTrailingFixed(s);
    }
  }

  /** Trimming twice is trimming once. */
  lemma TrimIdempotent(s: string)
    ensures Trim(Trim(s)) == Trim(s)
  {
    var t := Trim(s);
    StripLeadingFixed(t);
    StripTrailingFixed(t);
  }

  /** A string is blank exactly when every char is one `trim` removes. */
  lemma {:induction false} BlankIffAllTrimmed(s: string)
    ensures IsBlank(s) <==> forall k :: 0 <= k < |s| ==> IsTrimmed(s[k])
  {
    var l := StripLeading(s);
    assert |l| > 0 ==> l[0] == s[|s| - |l|];
  }

  /** Leading and trailing blanks do not change the trimmed text. */
  lemma {:induction false} TrimIgnoresPadding(s: string, pre: string, post: string)
    requires forall k :: 0 <= k < |pre| ==> IsTrimmed(pre[k])
    requires forall k :: 0 <= k < |post| ==> IsTrimmed(post[k])
    ensures Trim(pre + s + post) == Trim(s)
  {
    StripLeadingPrefix(pre, s + post);
    assert pre + s + post == pre + (s + post);
    StripLeadingOfPadded(s, post);
    var l := StripLeading(s);
    StripTrailingSuffix(l, post);
  }

  lemma {:induction false} StripLeadingPrefix(pre: string, s: string)
    requires forall k :: 0 <= k < |pre| ==> IsTrimmed(pre[k])
    ensures StripLeading(pre + s) == StripLeading(s)
    decreases |pre|
  {
    if |pre| > 0 {
      assert (pre + s)[1..] == pre[1..] + s;
      StripLeadingPrefix(pre[1..], s);
    } else {
      assert pre + s == s;
    }
  }

  lemma {:induction false} StripTrailingSuffix(s: string, post: string)
    requires forall k :: 0 <= k < |post| ==> IsTrimmed(post[k])
    ensures StripTrailing(s + post) == StripTrailing(s)
    decreases |post|
  {
    if |post| > 0 {
      var p := post[..|post| - 1];
      assert (s + post)[..|s + post| - 1] == s + p;
      StripTrailingSuffix(s, p);
    } else {
      assert s + post == s;
    }
  }

  /** Stripping leading blanks commutes with appending trailing blanks,
      unless everything was blank. */
  lemma {:induction false} StripLeadingOfPadded(s: string, post: string)
    requires forall k :: 0 <= k < |post| ==> IsTrimmed(post[k])
    ensures StripTrailing(StripLeading(s + post)) == StripTrailing(StripLeading(s))
    decreases |s|
  {
    if |s| > 0 && IsTrimmed(s[0]) {
      assert (s + post)[1..] == s[1..] + post;
      StripLeadingOfPadded(s[1..], post);
    } else if |s| > 0 {
      StripTrailingSuffix(s, post);
    } else {
      assert s + post == post;
      StripLeadingPrefix(post, []);
      assert post + [] == post;
    }
  }

  predicate IsAsciiUpper(c: char) {
    'A' <= c <= 'Z'
  }

  predicate IsAsciiLower(c: char) {
    'a' <= c <= 'z'
  }

  function ToUpperChar(c: char): (r: char)
    ensures !IsAsciiLower(r)
  {
    if IsAsciiLower(c) then (c as int - 32) as char else c
  }

  function ToLowerChar(c: char): (r: char)
    ensures !IsAsciiUpper(r)
  {
    if IsAsciiUpper(c) then (c as int + 32) as char else c
  }

  /** `String.toUpperCase()` restricted to ASCII letters. */
  function ToUpper(s: string): (r: string)
    ensures |r| == |s|
    ensures forall k :: 0 <= k < |s| ==> r[k] == ToUpperChar(s[k])
  {
    seq(|s|, k requires 0 <= k < |s| => ToUpperChar(s[k]))
  }

  predicate StartsWith(s: string, prefix: string) {
    |prefix| <= |s| && s[..|prefix|] == prefix
  }

  /** `String.join(sep, parts)`. */
  function Join(sep: string, parts: seq<string>): (r: string)
    ensures |parts| == 0 ==> r == ""
    ensures |parts| == 1 ==> r == parts[0]
  {
    if |parts| == 0 then ""
    else if |parts| == 1 then parts[0]
    else parts[0] + sep + Join(sep, parts[1..])
  }

  lemma {:induction false} JoinAppend(sep: string, a: seq<string>, b: seq<string>)
    requires |a| > 0 && |b| > 0
    ensures Join(sep, a + b) == Join(sep, a) + sep + Join(sep, b)
    decreases |a|
  {
    if |a| == 1 {
      assert (a + b)[1..] == b;
    } else {
      assert (a + b)[1..] == a[1..] + b;
      JoinAppend(sep, a[1..], b);
    }
  }

  /** Every piece between separators, including empty ones; always at least one. */
  function SplitAll(s: string, sep: char): (r: seq<string>)
    ensures |r| >= 1
    ensures forall i :: 0 <= i < |r| ==> sep !in r[i]
    decreases |s|
  {
    if |s| == 0 then [""]
    else
      var rest := SplitAll(s[1..], sep);
      if s[0] == sep then [""] + rest
      else [[s[0]] + rest[0]] + rest[1..]
  }

  function DropTrailingEmpty(pieces: seq<string>): (r: seq<string>)
    ensures |r| <= |pieces| && r == pieces[..|r|]
    ensures |r| == 0 || r[|r| - 1] != ""
    ensures forall i :: |r| <= i < |pieces| ==> pieces[i] == ""
  {
    if |pieces| > 0 && pieces[|pieces| - 1] == "" then DropTrailingEmpty(pieces[..|pieces| - 1])
    else pieces
  }

  /** `s.split(regex)` for a regex matching one literal char: without a match
      the string itself is the only piece (so "" gives [""]); otherwise the
      trailing empty pieces are removed (so "," gives []). */
  function Split(s: string, sep: char): (r: seq<string>)
    ensures sep !in s ==> r == [s]
    ensures forall i :: 0 <= i < |r| ==> sep !in r[i]
  {
    if sep !in s then [s] else DropTrailingEmpty(SplitAll(s, sep))
  }

  lemma {:induction false} SplitAllNoSep(s: string, sep: char)
    requires sep !in s
    ensures SplitAll(s, sep) == [s]
    decreases |s|
  {
    if |s| > 0 {
      SplitAllNoSep(s[1..], sep);
      assert s[0] != sep;
      assert [s[0]] + s[1..] == s;
    }
  }

  /** Splitting a joined list gives back the pieces when none holds the separator. */
  lemma {:induction false} SplitAllJoin(parts: seq<string>, sep: char)
    requires |parts| > 0
    requires forall i :: 0 <= i < |parts| ==> sep !in parts[i]
    ensures SplitAll(Join([sep], parts), sep) == parts
    decreases |parts|
  {
    if |parts| == 1 {
      SplitAllNoSep(parts[0], sep);
    } else {
      var rest := Join([sep], parts[1..]);
      assert Join([sep], parts) == parts[0] + [sep] + rest;
      assert sep !in parts[0];
      SplitAllJoin(parts[1..], sep);
      SplitAllPrefix(parts[0], rest, sep);
      assert [parts[0]] + parts[1..] == parts;
    }
  }

  /** Splitting `p + sep + rest` puts `p` in front of the pieces of `rest`. */
  lemma {:induction false} SplitAllPrefix(p: string, rest: string, sep: char)
    requires sep !in p
    ensures SplitAll(p + [sep] + rest, sep) == [p] + SplitAll(rest, sep)
    decreases |p|
  {
    if |p| == 0 {
      assert p + [sep] + rest == [sep] + rest;
      assert ([sep] + rest)[1..] == rest;
    } else {
      SplitAllPrefix(p[1..], rest, sep);
      var s := p + [sep] + rest;
      assert s[0] == p[0] && s[0] != sep;
      assert s[1..] == p[1..] + [sep] + rest;
      assert [p[0]] + p[1..] == p;
    }
  }

  /** `split` undoes `String.join` when no piece holds the separator and the
      last piece is not empty. */
  lemma SplitJoin(parts: seq<string>, sep: char)
    requires |parts| > 0 && parts[|parts| - 1] != ""
    requires forall i :: 0 <= i < |parts| ==> sep !in parts[i]
    ensures Split(Join([sep], parts), sep) == parts
  {
    if |parts| == 1 {
    } else {
      var joined := Join([sep], parts);
      assert joined[|parts[0]|] == sep;
      SplitAllJoin(parts, sep);
    }
  }

  /** Every character other than the separator lands in some piece. */
  lemma {:induction false} SplitAllKeepsChars(s: string, sep: char, c: char)
    requires c in s && c != sep
    ensures exists j :: 0 <= j < |SplitAll(s, sep)| && c in SplitAll(s, sep)[j]
    decreases |s|
  {
    var r := SplitAll(s, sep);
    var rest := SplitAll(s[1..], sep);
    if s[0] == c {
      assert c in r[0];
    } else {
      assert c in s[1..];
      SplitAllKeepsChars(s[1..], sep, c);
      var j :| 0 <= j < |rest| && c in rest[j];
      if s[0] == sep {
        assert r[j + 1] == rest[j];
      } else if j == 0 {
        assert r[0] == [s[0]] + rest[0];
      } else {
        assert r[j] == rest[j];
      }
    }
  }

  /** `split` loses no character but the separator: the pieces it drops
      are empty. */
  lemma SplitKeepsChars(s: string, sep: char, c: char)
    requires c in s && c != sep
    ensures exists j :: 0 <= j < |Split(s, sep)| && c in Split(s, sep)[j]
  {
    if sep in s {
      SplitAllKeepsChars(s, sep, c);
      var all := SplitAll(s, sep);
      var j :| 0 <= j < |all| && c in all[j];
      var r := DropTrailingEmpty(all);
      assert j < |r| && r[j] == all[j];
      assert Split(s, sep) == r && c in r[j];
    } else {
      assert Split(s, sep)[0] == s;
    }
  }
}
