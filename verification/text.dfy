/** Python's `str.split(sep)` with an explicit one-character separator, the only
    tokenizer the reader uses (on header lines and on data lines). Unlike the
    argument-less `split()`, it keeps empty pieces and does not strip the
    trailing newline of a line. */
module Text {

  /** Position of the first `sep` in `s`, or `|s|` when `s` holds none. */
  function FirstIndex(s: string, sep: char): (i: nat)
    ensures i <= |s|
    ensures sep !in s[..i]
    ensures i < |s| ==> s[i] == sep
  {
    if |s| == 0 then 0
    else if s[0] == sep then 0
    else
      var j := FirstIndex(s[1..], sep);
      assert s[..1 + j] == [s[0]] + s[1..][..j];
      1 + j
  }

  /** The first occurrence is determined by the two facts that characterise it. */
  lemma FirstIndexUnique(s: string, sep: char, i: nat)
    requires i <= |s|
    requires sep !in s[..i]
    requires i < |s| ==> s[i] == sep
    ensures FirstIndex(s, sep) == i
  {
  }

  /** Joins the pieces with one separator between neighbours (Python's `sep.join`). */
  function Join(parts: seq<string>, sep: char): string
  {
    if |parts| == 0 then []
    else if |parts| == 1 then parts[0]
    else parts[0] + [sep] + Join(parts[1..], sep)
  }

  /** `s.split(sep)`: the maximal separator-free pieces between separators. There is
      always one piece more than there are separators in `s`, so the empty string
      gives `[""]` and a trailing separator gives a trailing empty piece. */
  function Split(s: string, sep: char): (parts: seq<string>)
    ensures |parts| >= 1
    ensures forall k :: 0 <= k < |parts| ==> sep !in parts[k]
    ensures Join(parts, sep) == s
    ensures |parts| == 1 <==> sep !in s
    decreases |s|
  {
    var i := FirstIndex(s, sep);
    if i == |s| then
      assert s[..i] == s;
      [s]
    else
      var rest := Split(s[i + 1..], sep);
      assert s == s[..i] + [sep] + s[i + 1..];
      assert s[i] in s;
      [s[..i]] + rest
  }

  /** The first piece is the text before the first separator. */
  lemma SplitHead(s: string, sep: char)
    ensures Split(s, sep)[0] == s[..FirstIndex(s, sep)]
  {
    if FirstIndex(s, sep) == |s| {
      assert s[..|s|] == s;
    }
  }

  /** Splitting undoes joining: pieces free of the separator are recovered exactly. */
  lemma {:induction false} SplitJoin(parts: seq<string>, sep: char)
    requires |parts| >= 1
    requires forall k :: 0 <= k < |parts| ==> sep !in parts[k]
    ensures Split(Join(parts, sep), sep) == parts
    decreases |parts|
  {
    var s := Join(parts, sep);
    if |parts| == 1 {
      FirstIndexUnique(s, sep, |s|);
      assert s[..|s|] == s;
    } else {
      var rest := Join(parts[1..], sep);
      assert s == parts[0] + [sep] + rest;
      assert s[..|parts[0]|] == parts[0];
      FirstIndexUnique(s, sep, |parts[0]|);
      assert s[|parts[0]| + 1..] == rest;
      SplitJoin(parts[1..], sep);
      assert parts == [parts[0]] + parts[1..];
    }
  }

  /** A name free of the separator is the first piece exactly when the text is
      that name alone or starts with the name followed by the separator. */
  lemma SplitHeadIs(s: string, sep: char, name: string)
    requires sep !in name
    ensures Split(s, sep)[0] == name <==> (s == name || name + [sep] <= s)
  {
    var i := FirstIndex(s, sep);
    SplitHead(s, sep);
    if s == name {
      FirstIndexUnique(s, sep, |s|);
      assert s[..|s|] == s;
    } else if name + [sep] <= s {
      assert s[..|name|] == name;
      assert s[|name|] == sep;
      FirstIndexUnique(s, sep, |name|);
    }
  }

  /** The second piece, when there is one, is the separator-free run after the first separator. */
  lemma SplitSecond(s: string, sep: char)
    requires |Split(s, sep)| >= 2
    ensures var i := FirstIndex(s, sep);
            i < |s| && Split(s, sep)[1] == Split(s[i + 1..], sep)[0]
  {
  }

  /** When a line carries its line break only as its last character, every piece
      of it but the last is free of line breaks. */
  lemma {:induction false} OnlyLastPieceKeepsLineBreak(s: string, sep: char)
    requires sep != '\n'
    requires |s| > 0 ==> '\n' !in s[..|s| - 1]
    ensures var parts := Split(s, sep);
            forall k :: 0 <= k < |parts| - 1 ==> '\n' !in parts[k]
    decreases |s|
  {
    var i := FirstIndex(s, sep);
    if i < |s| {
      var t := s[i + 1..];
      if |t| > 0 {
        assert t[..|t| - 1] == s[i + 1..|s| - 1];
      }
      OnlyLastPieceKeepsLineBreak(t, sep);
      assert forall c :: c in s[..i] ==> c in s[..|s| - 1];
      var parts := Split(s, sep);
      assert parts == [s[..i]] + Split(t, sep);
      forall k | 0 <= k < |parts| - 1
        ensures '\n' !in parts[k]
      {
        if k > 0 {
          assert parts[k] == Split(t, sep)[k - 1];
        }
      }
    }
  }
}
