/** The fixed six-line header of an ESRI ASCII raster, read one line per field. */
module Header {
  import opened Text

  /** The six header fields. */
  datatype Field = NCols | NRows | XllCenter | YllCenter | CellSize | NoDataValue

  /** The fields in the order the reader expects them, one per line. */
  const FieldOrder: seq<Field> := [NCols, NRows, XllCenter, YllCenter, CellSize, NoDataValue]

  /** The name a header line must start with, compared case-sensitively. */
  function Name(f: Field): string {
    match f
    case NCols => "NCOLS"
    case NRows => "NROWS"
    case XllCenter => "XLLCENTER"
    case YllCenter => "YLLCENTER"
    case CellSize => "CELLSIZE"
    case NoDataValue => "NODATA_VALUE"
  }

  /** What looking up one header line gives: the value token, `None` for a line
      that does not start with the expected name, or the `IndexError` raised by
      `l1[1]` when the line is the bare name with nothing after it. */
  datatype Lookup = Found(value: string) | Absent | IndexError

  /** `getHeaderField(line, expected_name)`: the value is the second space-separated
      piece, kept verbatim (with its line break when the line is `NAME value\n`). */
  function GetHeaderField(line: string, expectedName: string): (r: Lookup)
    ensures r.IndexError? ==> line == expectedName
    ensures r.Found? ==> ' ' !in r.value
  {
    var parts := Split(line, ' ');
    if parts[0] != expectedName then Absent
    else if |parts| < 2 then IndexError
    else Found(parts[1])
  }

  /** For a field name without spaces, a line yields a value exactly when it starts
      with the name and a space, and raises exactly when it is the bare name. The
      value is the token right after that space, up to the next space or the end. */
  lemma GetHeaderFieldMeaning(line: string, expectedName: string)
    requires ' ' !in expectedName
    ensures var r := GetHeaderField(line, expectedName);
            && (r.Found? <==> expectedName + " " <= line)
            && (r.IndexError? <==> line == expectedName)
            && (r.Found? ==>
                  var prefix := expectedName + " " + r.value;
                  && ' ' !in r.value
                  && prefix <= line
                  && (|line| == |prefix| || line[|prefix|] == ' '))
  {
    SplitHeadIs(line, ' ', expectedName);
    if GetHeaderField(line, expectedName).Found? {
      FoundValueFollowsName(line, expectedName);
    }
  }

  /** The second piece sits right after `name` and one space, and runs to the next
      space or to the end of the line. */
  lemma FoundValueFollowsName(line: string, name: string)
    requires |Split(line, ' ')| >= 2 && Split(line, ' ')[0] == name
    ensures var v := Split(line, ' ')[1];
            var prefix := name + " " + v;
            && prefix <= line
            && (|line| == |prefix| || line[|prefix|] == ' ')
  {
    var i := FirstIndex(line, ' ');
    var t := line[i + 1..];
    var v := Split(line, ' ')[1];
    assert i < |line| && v == Split(t, ' ')[0] by {
      SplitSecond(line, ' ');
    }
    assert line[..i] == name by {
      SplitHead(line, ' ');
    }
    var j := FirstIndex(t, ' ');
    assert v == t[..j] by {
      SplitHead(t, ' ');
    }
    ValueAfterName(line, name, i, t, j, v);
  }

  lemma ValueAfterName(line: string, name: string, i: nat, t: string, j: nat, v: string)
    requires i < |line| && line[..i] == name && line[i] == ' ' && t == line[i + 1..]
    requires j <= |t| && (j < |t| ==> t[j] == ' ') && v == t[..j]
    ensures var prefix := name + " " + v;
            && prefix <= line
            && (|line| == |prefix| || line[|prefix|] == ' ')
  {
    assert line[..i + 1 + j] == name + " " + v;
  }

  /** The line `readline()` returns for header position `k`: past the end of the
      file it returns the empty string. */
  function LineAt(lines: seq<string>, k: nat): string {
    if k < |lines| then lines[k] else ""
  }

  /** The lookup the header loop performs for field number `k`. */
  function FieldLookup(lines: seq<string>, k: nat): Lookup
    requires k < |FieldOrder|
  {
    GetHeaderField(LineAt(lines, k), Name(FieldOrder[k]))
  }

  /** Outcome of the header loop: every field found, `_read` returning `None` at the
      first absent field, or the `IndexError` escaping from `getHeaderField`. */
  datatype HeaderOutcome =
    | Parsed(fields: map<Field, string>)
    | MissingField(field: Field)
    | MalformedField(field: Field)

  /** The loop of the header from field `k` on, given what each line's lookup
      yields and the fields found so far. Lookups are pure, so taking them as
      values changes nothing: the loop still stops at the first one that fails. */
  function ReadFrom(lookups: seq<Lookup>, k: nat, found: map<Field, string>): (r: HeaderOutcome)
    requires |lookups| == |FieldOrder| && k <= |FieldOrder|
    ensures r.Parsed? <==> forall i :: k <= i < |FieldOrder| ==> lookups[i].Found?
    ensures r.MissingField? ==> exists i :: k <= i < |FieldOrder| && lookups[i].Absent? && r.field == FieldOrder[i]
    ensures r.MalformedField? ==> exists i :: k <= i < |FieldOrder| && lookups[i].IndexError? && r.field == FieldOrder[i]
    decreases |FieldOrder| - k
  {
    if k == |FieldOrder| then Parsed(found)
    else match lookups[k]
      case Absent => MissingField(FieldOrder[k])
      case IndexError => MalformedField(FieldOrder[k])
      case Found(v) => ReadFrom(lookups, k + 1, found[FieldOrder[k] := v])
  }

  /** The lookup of every header line against its field. */
  function Lookups(lines: seq<string>): (ls: seq<Lookup>)
    ensures |ls| == |FieldOrder|
    ensures forall k :: 0 <= k < |FieldOrder| ==> ls[k] == FieldLookup(lines, k)
  {
    seq(|FieldOrder|, k requires 0 <= k < |FieldOrder| => FieldLookup(lines, k))
  }

  /** The header loop of `_read`: fields are consumed one line each in the fixed
      order, and the first line that fails stops the loop. */
  function ReadHeader(lines: seq<string>): (r: HeaderOutcome)
    ensures r.Parsed? <==> forall k :: 0 <= k < |FieldOrder| ==> FieldLookup(lines, k).Found?
    ensures r.Parsed? ==>
              && r.fields.Keys == {NCols, NRows, XllCenter, YllCenter, CellSize, NoDataValue}
              && (forall k :: 0 <= k < |FieldOrder| ==> r.fields[FieldOrder[k]] == FieldLookup(lines, k).value)
              && |lines| >= |FieldOrder|
    ensures var f := FirstFailure(Lookups(lines), 0);
            && (r.MissingField? <==> f < |FieldOrder| && FieldLookup(lines, f).Absent?)
            && (r.MalformedField? <==> f < |FieldOrder| && FieldLookup(lines, f).IndexError?)
            && (!r.Parsed? ==> r.field == FieldOrder[f])
  {
    var ls := Lookups(lines);
    ReadFromFails(ls, 0, map[]);
    if FirstFailure(ls, 0) == |FieldOrder| then
      ReadFromParsed(ls, 0, map[]);
      ParsedNeedsSixLines(lines);
      AllFieldsInOrder();
      ReadFrom(ls, 0, map[])
    else
      ReadFrom(ls, 0, map[])
  }

  /** The empty string `readline()` gives past the end never yields a value, so a
      complete header needs six lines. */
  lemma ParsedNeedsSixLines(lines: seq<string>)
    ensures FieldLookup(lines, |FieldOrder| - 1).Found? ==> |lines| >= |FieldOrder|
  {
    if |lines| < |FieldOrder| {
      assert LineAt(lines, |FieldOrder| - 1) == "";
    }
  }

  /** The declarative meaning of the loop from field `k` on, when it succeeds. */
  lemma {:induction false} ReadFromParsed(lookups: seq<Lookup>, k: nat, found: map<Field, string>)
    requires |lookups| == |FieldOrder| && k <= |FieldOrder|
    requires forall i :: 0 <= i < |FieldOrder| ==> lookups[i].Found?
    requires found.Keys == FieldsBefore(k)
    requires forall i :: 0 <= i < k ==> found[FieldOrder[i]] == lookups[i].value
    ensures var r := ReadFrom(lookups, k, found);
            && r.Parsed?
            && r.fields.Keys == FieldsBefore(|FieldOrder|)
            && forall i :: 0 <= i < |FieldOrder| ==> r.fields[FieldOrder[i]] == lookups[i].value
    decreases |FieldOrder| - k
  {
    if k < |FieldOrder| {
      var found' := found[FieldOrder[k] := lookups[k].value];
      assert found'.Keys == FieldsBefore(k + 1);
      ReadFromParsed(lookups, k + 1, found');
    }
  }

  /** The first field, from `from` on, whose lookup does not yield a value
      (`|FieldOrder|` when there is none). */
  function FirstFailure(lookups: seq<Lookup>, from: nat): (k: nat)
    requires |lookups| == |FieldOrder| && from <= |FieldOrder|
    ensures from <= k <= |FieldOrder|
    ensures forall i :: from <= i < k ==> lookups[i].Found?
    ensures k < |FieldOrder| ==> !lookups[k].Found?
    decreases |FieldOrder| - from
  {
    if from == |FieldOrder| || !lookups[from].Found? then from
    else FirstFailure(lookups, from + 1)
  }

  /** The declarative meaning of the loop from field `k` on, when it stops early. */
  lemma {:induction false} ReadFromFails(lookups: seq<Lookup>, k: nat, found: map<Field, string>)
    requires |lookups| == |FieldOrder| && k <= |FieldOrder|
    ensures var f := FirstFailure(lookups, k);
            var r := ReadFrom(lookups, k, found);
            && (f == |FieldOrder| ==> r.Parsed?)
            && (f < |FieldOrder| ==> r == if lookups[f].Absent? then MissingField(FieldOrder[f])
                                         else MalformedField(FieldOrder[f]))
    decreases |FieldOrder| - k
  {
    if k < |FieldOrder| && lookups[k].Found? {
      ReadFromFails(lookups, k + 1, found[FieldOrder[k] := lookups[k].value]);
    }
  }

  /** Every field appears in the order. */
  lemma AllFieldsInOrder()
    ensures FieldsBefore(|FieldOrder|) == {NCols, NRows, XllCenter, YllCenter, CellSize, NoDataValue}
  {
    assert FieldOrder[0] == NCols && FieldOrder[1] == NRows && FieldOrder[2] == XllCenter;
    assert FieldOrder[3] == YllCenter && FieldOrder[4] == CellSize && FieldOrder[5] == NoDataValue;
  }

  /** The first `k` fields of the order. */
  function FieldsBefore(k: nat): set<Field>
    requires k <= |FieldOrder|
  {
    set i | 0 <= i < k :: FieldOrder[i]
  }

  /** No line after the first failing one is consulted: an input that agrees with
      `lines` up to and including that line gives the same outcome. */
  lemma StopsAtFirstFailure(lines: seq<string>, other: seq<string>)
    requires FirstFailure(Lookups(lines), 0) < |FieldOrder|
    requires forall i :: 0 <= i <= FirstFailure(Lookups(lines), 0) ==> LineAt(lines, i) == LineAt(other, i)
    ensures ReadHeader(other) == ReadHeader(lines)
  {
    SameFirstFailure(Lookups(lines), Lookups(other), 0);
  }

  lemma {:induction false} SameFirstFailure(ls: seq<Lookup>, other: seq<Lookup>, from: nat)
    requires |ls| == |other| == |FieldOrder| && from <= |FieldOrder|
    requires FirstFailure(ls, from) < |FieldOrder|
    requires forall i :: from <= i <= FirstFailure(ls, from) ==> ls[i] == other[i]
    ensures FirstFailure(other, from) == FirstFailure(ls, from)
    decreases |FieldOrder| - from
  {
    if FirstFailure(ls, from) > from {
      SameFirstFailure(ls, other, from + 1);
    }
  }
}
