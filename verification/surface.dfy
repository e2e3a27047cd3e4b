/** The sample loop of the reader: every data line after the header is split on
    single spaces and each accepted token becomes one surface vertex. */
module Surface {
  import opened Wrappers
  import opened Text
  import opened Geometry
  import Elevation

  /** Python's `float()` on a token, abstracted: `None` where it raises. */
  type ParseReal = string -> Option<real>

  /** The pieces of one data line, `line.split(' ')`; the last keeps the line break. */
  function Tokens(line: string): seq<string> {
    Split(line, ' ')
  }

  /** A token the loop turns into a vertex: the no-data string itself (compared
      verbatim), or text that `float()` accepts. Every other token is skipped. */
  predicate IsSample(tok: string, noData: string, parse: ParseReal) {
    tok == noData || parse(tok).Some?
  }

  /** The elevation a sample token gets: `0.0` for no-data, the parsed value otherwise. */
  function SampleElevation(tok: string, noData: string, parse: ParseReal): real
    requires IsSample(tok, noData, parse)
  {
    if tok == noData then 0.0 else parse(tok).value
  }

  /** A token whose value goes through the running maximum and minimum: parsed,
      and not the no-data string. */
  predicate IsReading(tok: string, noData: string, parse: ParseReal) {
    tok != noData && parse(tok).Some?
  }

  /** The sample tokens of a line, in order. */
  function Samples(tokens: seq<string>, noData: string, parse: ParseReal): (acc: seq<string>)
    ensures |acc| <= |tokens|
    ensures forall k :: 0 <= k < |acc| ==> IsSample(acc[k], noData, parse)
  {
    if |tokens| == 0 then []
    else
      var last := tokens[|tokens| - 1];
      Samples(tokens[..|tokens| - 1], noData, parse) + (if IsSample(last, noData, parse) then [last] else [])
  }

  /** The values of the reading tokens of a line, in order. */
  function Readings(tokens: seq<string>, noData: string, parse: ParseReal): (zs: seq<real>)
    ensures |zs| <= |Samples(tokens, noData, parse)| <= |tokens|
  {
    if |tokens| == 0 then []
    else
      var last := tokens[|tokens| - 1];
      Readings(tokens[..|tokens| - 1], noData, parse)
        + (if IsReading(last, noData, parse) then [parse(last).value] else [])
  }

  /** The vertices of data line `y`: the k-th sample token stands at
      `(k * cellSize, y * cellSize)` with its elevation. */
  function RowVertices(tokens: seq<string>, y: int, cellSize: int, noData: string, parse: ParseReal): (vs: seq<Vertex>)
    ensures |vs| == |Samples(tokens, noData, parse)|
    ensures forall k :: 0 <= k < |vs| ==> vs[k].z == 0.0 || vs[k].z in Readings(tokens, noData, parse)
  {
    var acc := Samples(tokens, noData, parse);
    forall k | 0 <= k < |acc| && acc[k] != noData
      ensures parse(acc[k]).value in Readings(tokens, noData, parse)
    {
      SampleValueIsReading(tokens, noData, parse, k);
    }
    seq(|acc|, k requires 0 <= k < |acc| =>
      Vertex((k * cellSize) as real, (y * cellSize) as real, SampleElevation(acc[k], noData, parse)))
  }

  /** The vertex row of every data line, line `y` at `y * cellSize`. */
  function Rows(lines: seq<string>, cellSize: int, noData: string, parse: ParseReal): seq<seq<Vertex>>
  {
    seq(|lines|, y requires 0 <= y < |lines| => RowVertices(Tokens(lines[y]), y, cellSize, noData, parse))
  }

  /** The surface vertices: the rows of all data lines, one after the other. */
  function GridVertices(lines: seq<string>, cellSize: int, noData: string, parse: ParseReal): (vs: seq<Vertex>)
    ensures forall k :: 0 <= k < |vs| ==> vs[k].z == 0.0 || vs[k].z in GridReadings(lines, noData, parse)
  {
    var rows := Rows(lines, cellSize, noData, parse);
    var P := (v: Vertex) => v.z == 0.0 || v.z in GridReadings(lines, noData, parse);
    forall y, x | 0 <= y < |rows| && 0 <= x < |rows[y]|
      ensures P(rows[y][x])
    {
      LineReadingsInGrid(lines, y, noData, parse);
    }
    ConcatForall(rows, P);
    Concat(rows)
  }

  /** The readings of all data lines, in reading order. */
  function GridReadings(lines: seq<string>, noData: string, parse: ParseReal): seq<real>
  {
    if |lines| == 0 then []
    else
      var y := |lines| - 1;
      GridReadings(lines[..y], noData, parse) + Readings(Tokens(lines[y]), noData, parse)
  }

  /** The value of a sample token other than no-data is among the line's
      readings. */
  lemma {:induction false} SampleValueIsReading(tokens: seq<string>, noData: string, parse: ParseReal, k: nat)
    requires k < |Samples(tokens, noData, parse)| && Samples(tokens, noData, parse)[k] != noData
    ensures parse(Samples(tokens, noData, parse)[k]).value in Readings(tokens, noData, parse)
    decreases |tokens|
  {
    var pre := tokens[..|tokens| - 1];
    var last := tokens[|tokens| - 1];
    if k < |Samples(pre, noData, parse)| {
      SampleValueIsReading(pre, noData, parse, k);
    } else {
      assert Samples(tokens, noData, parse)[k] == last;
    }
  }

  /** The readings of data line `y` are among the readings of the whole grid. */
  lemma {:induction false} LineReadingsInGrid(lines: seq<string>, y: int, noData: string, parse: ParseReal)
    requires 0 <= y < |lines|
    ensures forall z :: z in Readings(Tokens(lines[y]), noData, parse) ==> z in GridReadings(lines, noData, parse)
    decreases |lines|
  {
    var n := |lines| - 1;
    var line := Readings(Tokens(lines[y]), noData, parse);
    var pre := GridReadings(lines[..n], noData, parse);
    assert GridReadings(lines, noData, parse) == pre + Readings(Tokens(lines[n]), noData, parse);
    if y < n {
      LineReadingsInGrid(lines[..n], y, noData, parse);
      assert lines[..n][y] == lines[y];
      assert forall z :: z in line ==> z in pre;
    }
  }

  /** Every surface vertex lies at or below the final running maximum: no-data
      vertices sit at zero, the seed of the maximum, and every other vertex holds
      one of the readings the maximum has seen. */
  lemma SurfaceBelowMaximum(lines: seq<string>, cellSize: int, noData: string, parse: ParseReal)
    ensures var vs := GridVertices(lines, cellSize, noData, parse);
            var hi := Elevation.Fold(Elevation.Seed, GridReadings(lines, noData, parse)).hi;
            forall k :: 0 <= k < |vs| ==> vs[k].z <= hi
  {
  }

  /** A sample token adds one vertex at the next column, with its elevation. */
  lemma SampleAppendsVertex(tokens: seq<string>, tok: string, y: int, cellSize: int, noData: string, parse: ParseReal)
    requires IsSample(tok, noData, parse)
    ensures var x := |Samples(tokens, noData, parse)|;
            RowVertices(tokens + [tok], y, cellSize, noData, parse)
              == RowVertices(tokens, y, cellSize, noData, parse)
                 + [Vertex((x * cellSize) as real, (y * cellSize) as real, SampleElevation(tok, noData, parse))]
  {
    assert (tokens + [tok])[..|tokens|] == tokens;
  }

  /** A token that is neither no-data nor parseable adds nothing and does not
      advance the column. */
  lemma SkippedTokenAddsNothing(tokens: seq<string>, tok: string, y: int, cellSize: int, noData: string, parse: ParseReal)
    requires !IsSample(tok, noData, parse)
    ensures RowVertices(tokens + [tok], y, cellSize, noData, parse) == RowVertices(tokens, y, cellSize, noData, parse)
    ensures Samples(tokens + [tok], noData, parse) == Samples(tokens, noData, parse)
    ensures Readings(tokens + [tok], noData, parse) == Readings(tokens, noData, parse)
  {
    assert (tokens + [tok])[..|tokens|] == tokens;
  }

  /** The no-data string gives elevation zero and is not a reading. */
  lemma NoDataIsZero(tokens: seq<string>, y: int, cellSize: int, noData: string, parse: ParseReal)
    ensures var row := RowVertices(tokens + [noData], y, cellSize, noData, parse);
            |row| > 0 && row[|row| - 1].z == 0.0
    ensures Readings(tokens + [noData], noData, parse) == Readings(tokens, noData, parse)
  {
    SampleAppendsVertex(tokens, noData, y, cellSize, noData, parse);
    assert (tokens + [noData])[..|tokens|] == tokens;
  }

  /** When the no-data string ends with the line break (as the header value does),
      only the last token of a line can equal it: a no-data marker anywhere else
      on the line goes through `float()` like any number. */
  lemma MidLineNoDataIsParsed(line: string, noData: string, parse: ParseReal)
    requires |line| > 0 ==> '\n' !in line[..|line| - 1]
    requires |noData| > 0 && noData[|noData| - 1] == '\n'
    ensures var tokens := Tokens(line);
            forall k :: 0 <= k < |tokens| - 1 ==>
              && tokens[k] != noData
              && (IsSample(tokens[k], noData, parse) <==> parse(tokens[k]).Some?)
  {
    OnlyLastPieceKeepsLineBreak(line, ' ');
    var tokens := Tokens(line);
    assert tokens == Split(line, ' ');
    forall k | 0 <= k < |tokens| - 1
      ensures tokens[k] != noData
    {
      assert '\n' in noData && '\n' !in tokens[k];
    }
  }

  /** Every data line holds exactly `ncols` sample tokens: the file is a full
      `ncols`-wide grid. The reader itself never checks this. */
  predicate RegularRows(lines: seq<string>, ncols: nat, noData: string, parse: ParseReal) {
    forall y :: 0 <= y < |lines| ==> |Samples(Tokens(lines[y]), noData, parse)| == ncols
  }

  /** On a full grid the surface vertices are row-major: the point of column `x`
      on line `y` is vertex `y * ncols + x`, at `(x * cellSize, y * cellSize)`
      with the elevation of that line's x-th sample. */
  lemma RegularGridLayout(lines: seq<string>, ncols: nat, cellSize: int, noData: string, parse: ParseReal)
    requires RegularRows(lines, ncols, noData, parse)
    ensures var vs := GridVertices(lines, cellSize, noData, parse);
            && |vs| == |lines| * ncols
            && (forall x, y {:trigger GridIndex(ncols, x, y)} :: 0 <= x < ncols && 0 <= y < |lines| ==>
                  && GridIndex(ncols, x, y) < |vs|
                  && vs[GridIndex(ncols, x, y)]
                       == Vertex((x * cellSize) as real, (y * cellSize) as real,
                                 SampleElevation(Samples(Tokens(lines[y]), noData, parse)[x], noData, parse)))
  {
    ConcatUniform(Rows(lines, cellSize, noData, parse), ncols);
  }

  /** On a full grid the surface vertices stand on the grid the mesher assumes. */
  lemma RegularGridOnGrid(lines: seq<string>, ncols: nat, cellSize: int, noData: string, parse: ParseReal)
    requires RegularRows(lines, ncols, noData, parse)
    ensures OnGrid(GridVertices(lines, cellSize, noData, parse), ncols, |lines|, cellSize)
  {
    RegularGridLayout(lines, ncols, cellSize, noData, parse);
  }

  /** The loop of `_read` over the data lines, as the source writes it: a row
      counter advanced once per line, the line's vertices appended in place, and
      the running maximum and minimum carried from line to line. */
  method ScanGrid(lines: seq<string>, cellSize: int, noData: string, parse: ParseReal)
    returns (vertices: seq<Vertex>, maxElevation: real, minElevation: real)
    ensures vertices == GridVertices(lines, cellSize, noData, parse)
    ensures Elevation.Bounds(maxElevation, minElevation)
              == Elevation.Fold(Elevation.Seed, GridReadings(lines, noData, parse))
  {
    vertices := [];
    maxElevation := 0.0;
    minElevation := 10000000.0;
    var y := 0;
    while y < |lines|
      invariant 0 <= y <= |lines|
      invariant vertices == GridVertices(lines[..y], cellSize, noData, parse)
      invariant Elevation.Bounds(maxElevation, minElevation)
                  == Elevation.Fold(Elevation.Seed, GridReadings(lines[..y], noData, parse))
    {
      var tokens := Tokens(lines[y]);
      ghost var before := vertices;
      vertices, maxElevation, minElevation := ScanLine(tokens, y, cellSize, noData, parse, vertices, maxElevation, minElevation);
      assert vertices == GridVertices(lines[..y + 1], cellSize, noData, parse) by {
        var rows := Rows(lines[..y], cellSize, noData, parse);
        var row := RowVertices(tokens, y, cellSize, noData, parse);
        RowsSnoc(lines, y, cellSize, noData, parse);
        ConcatSnoc(rows, row);
      }
      assert Elevation.Bounds(maxElevation, minElevation)
               == Elevation.Fold(Elevation.Seed, GridReadings(lines[..y + 1], noData, parse)) by {
        assert lines[..y + 1][..y] == lines[..y];
        Elevation.FoldAppend(Elevation.Seed, GridReadings(lines[..y], noData, parse), Readings(tokens, noData, parse));
      }
      y := y + 1;
    }
    assert lines[..|lines|] == lines;
  }

  lemma RowsSnoc(lines: seq<string>, y: nat, cellSize: int, noData: string, parse: ParseReal)
    requires y < |lines|
    ensures Rows(lines[..y + 1], cellSize, noData, parse)
              == Rows(lines[..y], cellSize, noData, parse) + [RowVertices(Tokens(lines[y]), y, cellSize, noData, parse)]
  {
    var a := Rows(lines[..y + 1], cellSize, noData, parse);
    var b := Rows(lines[..y], cellSize, noData, parse) + [RowVertices(Tokens(lines[y]), y, cellSize, noData, parse)];
    assert |a| == |b|;
    forall i | 0 <= i < |a|
      ensures a[i] == b[i]
    {
      assert lines[..y + 1][i] == lines[i];
      if i < y {
        assert lines[..y][i] == lines[i];
      }
    }
  }

  /** The inner loop over the tokens of data line `y`: a column counter that only
      advances when a vertex is appended (`continue` skips a token `float()`
      rejects), and the `if`/`elif` update of the running maximum and minimum for
      every parsed value. */
  method ScanLine(tokens: seq<string>, y: int, cellSize: int, noData: string, parse: ParseReal,
                  vertices0: seq<Vertex>, maxElevation0: real, minElevation0: real)
    returns (vertices: seq<Vertex>, maxElevation: real, minElevation: real)
    ensures vertices == vertices0 + RowVertices(tokens, y, cellSize, noData, parse)
    ensures Elevation.Bounds(maxElevation, minElevation)
              == Elevation.Fold(Elevation.Bounds(maxElevation0, minElevation0), Readings(tokens, noData, parse))
  {
    vertices, maxElevation, minElevation := vertices0, maxElevation0, minElevation0;
    ghost var start := Elevation.Bounds(maxElevation0, minElevation0);
    var x := 0;
    var j := 0;
    while j < |tokens|
      invariant 0 <= j <= |tokens|
      invariant x == |Samples(tokens[..j], noData, parse)|
      invariant vertices == vertices0 + RowVertices(tokens[..j], y, cellSize, noData, parse)
      invariant Elevation.Bounds(maxElevation, minElevation)
                  == Elevation.Fold(start, Readings(tokens[..j], noData, parse))
    {
      var tok := tokens[j];
      ghost var vertices1, x1, before := vertices, x, Elevation.Bounds(maxElevation, minElevation);
      vertices, x, maxElevation, minElevation :=
        ScanToken(tok, x, y, cellSize, noData, parse, vertices, maxElevation, minElevation);
      ScanLineStep(tokens, j, y, cellSize, noData, parse, vertices0, start,
                   vertices1, x1, before, vertices, x, Elevation.Bounds(maxElevation, minElevation));
      j := j + 1;
    }
    assert tokens[..|tokens|] == tokens;
  }

  /** The inner loop's invariant survives one token. */
  lemma ScanLineStep(tokens: seq<string>, j: nat, y: int, cellSize: int, noData: string, parse: ParseReal,
                     vertices0: seq<Vertex>, start: Elevation.Bounds,
                     vertices: seq<Vertex>, x: int, b: Elevation.Bounds,
                     vertices': seq<Vertex>, x': int, b': Elevation.Bounds)
    requires j < |tokens|
    requires x == |Samples(tokens[..j], noData, parse)|
    requires vertices == vertices0 + RowVertices(tokens[..j], y, cellSize, noData, parse)
    requires b == Elevation.Fold(start, Readings(tokens[..j], noData, parse))
    requires var tok := tokens[j];
             && x' == x + (if IsSample(tok, noData, parse) then 1 else 0)
             && vertices' == vertices + (if IsSample(tok, noData, parse)
                                         then [Vertex((x * cellSize) as real, (y * cellSize) as real,
                                                      SampleElevation(tok, noData, parse))]
                                         else [])
             && b' == if IsReading(tok, noData, parse) then Elevation.Step(b, parse(tok).value) else b
    ensures x' == |Samples(tokens[..j + 1], noData, parse)|
    ensures vertices' == vertices0 + RowVertices(tokens[..j + 1], y, cellSize, noData, parse)
    ensures b' == Elevation.Fold(start, Readings(tokens[..j + 1], noData, parse))
  {
    var seen := tokens[..j];
    var tok := tokens[j];
    TokenStep(seen, tok, y, cellSize, noData, parse);
    assert tokens[..j + 1] == seen + [tok];
    if IsReading(tok, noData, parse) {
      Elevation.FoldSnoc(start, Readings(seen, noData, parse), parse(tok).value);
    }
  }

  /** One pass of the inner loop: a no-data token becomes a vertex at height
      zero; otherwise `float()` decides, and a value it accepts becomes a vertex
      and goes through the `if`/`elif` update of the running maximum and minimum,
      while a token it rejects is skipped (`continue`) and leaves everything,
      column counter included, as it was. */
  method ScanToken(tok: string, x: int, y: int, cellSize: int, noData: string, parse: ParseReal,
                   vertices0: seq<Vertex>, maxElevation0: real, minElevation0: real)
    returns (vertices: seq<Vertex>, x': int, maxElevation: real, minElevation: real)
    ensures x' == x + (if IsSample(tok, noData, parse) then 1 else 0)
    ensures vertices == vertices0 + (if IsSample(tok, noData, parse)
                                     then [Vertex((x * cellSize) as real, (y * cellSize) as real,
                                                  SampleElevation(tok, noData, parse))]
                                     else [])
    ensures Elevation.Bounds(maxElevation, minElevation)
              == if IsReading(tok, noData, parse)
                 then Elevation.Step(Elevation.Bounds(maxElevation0, minElevation0), parse(tok).value)
                 else Elevation.Bounds(maxElevation0, minElevation0)
  {
    vertices, x', maxElevation, minElevation := vertices0, x, maxElevation0, minElevation0;
    if tok == noData {
      vertices := vertices + [Vertex((x * cellSize) as real, (y * cellSize) as real, 0.0)];
      x' := x + 1;
    } else {
      match parse(tok)
      case None =>
      case Some(z) =>
        if z > maxElevation {
          maxElevation := z;
        } else if z < minElevation {
          minElevation := z;
        }
        vertices := vertices + [Vertex((x * cellSize) as real, (y * cellSize) as real, z)];
        x' := x + 1;
    }
  }

  /** What one more token does to the row: a sample adds the vertex of the next
      column, a reading adds its value, anything else adds nothing. */
  lemma TokenStep(seen: seq<string>, tok: string, y: int, cellSize: int, noData: string, parse: ParseReal)
    ensures var x := |Samples(seen, noData, parse)|;
            IsSample(tok, noData, parse) ==>
              && |Samples(seen + [tok], noData, parse)| == x + 1
              && RowVertices(seen + [tok], y, cellSize, noData, parse)
                   == RowVertices(seen, y, cellSize, noData, parse)
                      + [Vertex((x * cellSize) as real, (y * cellSize) as real, SampleElevation(tok, noData, parse))]
    ensures !IsSample(tok, noData, parse) ==>
              && Samples(seen + [tok], noData, parse) == Samples(seen, noData, parse)
              && RowVertices(seen + [tok], y, cellSize, noData, parse) == RowVertices(seen, y, cellSize, noData, parse)
    ensures IsReading(tok, noData, parse) ==>
              Readings(seen + [tok], noData, parse) == Readings(seen, noData, parse) + [parse(tok).value]
    ensures !IsReading(tok, noData, parse) ==>
              Readings(seen + [tok], noData, parse) == Readings(seen, noData, parse)
  {
    assert (seen + [tok])[..|seen|] == seen;
    if IsSample(tok, noData, parse) {
      SampleAppendsVertex(seen, tok, y, cellSize, noData, parse);
    } else {
      SkippedTokenAddsNothing(seen, tok, y, cellSize, noData, parse);
    }
  }
}
