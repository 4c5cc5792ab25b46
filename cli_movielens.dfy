/** format_table of the MovieLens command line: a fixed-width text table
    with a header line, a dashed separator and one line per row. */
module CliMovieLens {
  import opened Wrappers
  import opened Strings

  /** rows[:limit]: a prefix, counted from the end for a negative limit. */
  function SlicePrefix<T>(xs: seq<T>, limit: int): (r: seq<T>)
    ensures |r| <= |xs| && r == xs[..|r|]
    ensures limit >= 0 ==> |r| == if limit < |xs| then limit else |xs|
    ensures limit < 0 ==> |r| == if |xs| + limit > 0 then |xs| + limit else 0
  {
    if limit >= 0 then (if limit < |xs| then xs[..limit] else xs)
    else if |xs| + limit > 0 then xs[..|xs| + limit]
    else []
  }

  /** The rows a call displays. */
  function Displayed(rows: seq<seq<string>>, limit: Option<int>): (r: seq<seq<string>>)
    ensures limit.None? ==> r == rows
    ensures limit.Some? ==> r == SlicePrefix(rows, limit.value)
  {
    match limit
    case None => rows
    case Some(l) => SlicePrefix(rows, l)
  }

  /** No row has more cells than there are headers. */
  predicate RowsFit(headers: seq<string>, rows: seq<seq<string>>)
  {
    forall k :: 0 <= k < |rows| ==> |rows[k]| <= |headers|
  }

  /** widths[i] after the first n rows have been scanned: the header's
      length, raised by each cell of column i in turn. */
  function WidthAfter(headers: seq<string>, rows: seq<seq<string>>, n: int, i: int): int
    requires 0 <= n <= |rows| && 0 <= i < |headers|
    decreases n
  {
    if n == 0 then |headers[i]|
    else
      var w := WidthAfter(headers, rows, n - 1, i);
      var row := rows[n - 1];
      if i < |row| && |row[i]| > w then |row[i]| else w
  }

  /** The final widths list. */
  function ColumnWidths(headers: seq<string>, rows: seq<seq<string>>): (ws: seq<int>)
    ensures |ws| == |headers|
    ensures forall i :: 0 <= i < |headers| ==> ws[i] == WidthAfter(headers, rows, |rows|, i)
  {
    seq(|headers|, i requires 0 <= i < |headers| => WidthAfter(headers, rows, |rows|, i))
  }

  /** widths[i] is the largest of len(headers[i]) and the lengths of the
      cells in column i: no smaller than any of them, and equal to one. */
  lemma {:induction false} WidthIsMax(headers: seq<string>, rows: seq<seq<string>>, n: int, i: int)
    requires 0 <= n <= |rows| && 0 <= i < |headers|
    ensures WidthAfter(headers, rows, n, i) >= |headers[i]|
    ensures forall k :: 0 <= k < n && i < |rows[k]| ==> WidthAfter(headers, rows, n, i) >= |rows[k][i]|
    ensures WidthAfter(headers, rows, n, i) == |headers[i]|
            || exists k :: 0 <= k < n && i < |rows[k]| && WidthAfter(headers, rows, n, i) == |rows[k][i]|
    decreases n
  {
    if n > 0 {
      WidthIsMax(headers, rows, n - 1, i);
    }
  }

  /** The widths loop: widths starts as the header lengths and every cell
      raises its column; a cell beyond the last header is an IndexError. */
  method ComputeWidths(headers: seq<string>, rows: seq<seq<string>>) returns (res: Result<seq<int>>)
    ensures res.Err? <==> !RowsFit(headers, rows)
    ensures res.Err? ==> res.error == IndexError
    ensures res.Ok? ==> res.value == ColumnWidths(headers, rows)
  {
    var widths := new int[|headers|](i requires 0 <= i < |headers| => |headers[i]|);
    var ri := 0;
    while ri < |rows|
      invariant 0 <= ri <= |rows|
      invariant forall k :: 0 <= k < ri ==> |rows[k]| <= |headers|
      invariant forall i :: 0 <= i < |headers| ==> widths[i] == WidthAfter(headers, rows, ri, i)
    {
      var row := rows[ri];
      var ci := 0;
      while ci < |row|
        invariant 0 <= ci <= |row| && ci <= |headers|
        invariant forall i :: 0 <= i < ci ==> widths[i] == WidthAfter(headers, rows, ri + 1, i)
        invariant forall i :: ci <= i < |headers| ==> widths[i] == WidthAfter(headers, rows, ri, i)
      {
        if ci >= widths.Length {
          return Err(IndexError);
        }
        widths[ci] := if |row[ci]| > widths[ci] then |row[ci]| else widths[ci];
        ci := ci + 1;
      }
      ri := ri + 1;
    }
    return Ok(widths[..]);
  }

  /** " | ".join(h.ljust(widths[i]) ...) for the headers or for one row. */
  function PaddedLine(cells: seq<string>, widths: seq<int>): string
    requires |cells| <= |widths|
  {
    JoinBy(seq(|cells|, i requires 0 <= i < |cells| => LJust(cells[i], widths[i])), " | ")
  }

  /** "-+-".join("-" * w for w in widths). */
  function Separator(widths: seq<int>): string
  {
    JoinBy(seq(|widths|, i requires 0 <= i < |widths| => Repeat('-', widths[i])), "-+-")
  }

  /** The lines of the table: header, separator, then one per row. */
  function TableLines(headers: seq<string>, rows: seq<seq<string>>, widths: seq<int>): (lines: seq<string>)
    requires |widths| == |headers| && RowsFit(headers, rows)
    ensures |lines| == 2 + |rows|
  {
    [PaddedLine(headers, widths), Separator(widths)]
      + seq(|rows|, k requires 0 <= k < |rows| => PaddedLine(rows[k], widths))
  }

  /** format_table. */
  method FormatTable(headers: seq<string>, rows: seq<seq<string>>, limit: Option<int>) returns (res: Result<string>)
    ensures Displayed(rows, limit) == [] ==> res == Ok("No rows to display.")
    ensures Displayed(rows, limit) != [] ==> (res.Err? <==> !RowsFit(headers, Displayed(rows, limit)))
    ensures res.Err? ==> res.error == IndexError
    ensures Displayed(rows, limit) != [] && res.Ok? ==>
              var shown := Displayed(rows, limit);
              RowsFit(headers, shown)
              && res.value == JoinBy(TableLines(headers, shown, ColumnWidths(headers, shown)), "\n")
  {
    var shown := rows;
    if limit.Some? {
      shown := SlicePrefix(rows, limit.value);
    }
    if shown == [] {
      return Ok("No rows to display.");
    }
    var widths := ComputeWidths(headers, shown);
    if widths.Err? {
      return Err(widths.error);
    }
    return Ok(JoinBy(TableLines(headers, shown, widths.value), "\n"));
  }

  function Sum(ws: seq<int>): int
    decreases |ws|
  {
    if |ws| == 0 then 0 else ws[0] + Sum(ws[1..])
  }

  /** The width of every line of a table: the column widths plus a
      three-character separator between each two columns. */
  function TableWidth(widths: seq<int>): int
  {
    if |widths| == 0 then 0 else Sum(widths) + 3 * (|widths| - 1)
  }

  /** Pieces of the given widths have the widths' total length. */
  lemma {:induction false} TotalLengthSum(cells: seq<string>, widths: seq<int>)
    requires |cells| == |widths|
    requires forall i :: 0 <= i < |cells| ==> |cells[i]| == widths[i]
    ensures TotalLength(cells) == Sum(widths)
    decreases |cells|
  {
    if |cells| > 0 {
      TotalLengthSum(cells[1..], widths[1..]);
    }
  }

  /** A full row, padded to widths no smaller than its cells, is exactly
      TableWidth(widths) long. */
  lemma PaddedLineWidth(cells: seq<string>, widths: seq<int>)
    requires |cells| == |widths|
    requires forall i :: 0 <= i < |cells| ==> |cells[i]| <= widths[i]
    ensures |PaddedLine(cells, widths)| == TableWidth(widths)
  {
    var padded := seq(|cells|, i requires 0 <= i < |cells| => LJust(cells[i], widths[i]));
    if |cells| > 0 {
      JoinByLength(padded, " | ");
      TotalLengthSum(padded, widths);
    }
  }

  /** The separator is also TableWidth(widths) long, for non-negative widths,
      and is made of dashes and plus signs only. */
  lemma SeparatorWidth(widths: seq<int>)
    requires forall i :: 0 <= i < |widths| ==> widths[i] >= 0
    ensures |Separator(widths)| == TableWidth(widths)
    ensures forall c :: c in Separator(widths) ==> c == '-' || c == '+'
  {
    var runs := seq(|widths|, i requires 0 <= i < |widths| => Repeat('-', widths[i]));
    if |widths| > 0 {
      JoinByLength(runs, "-+-");
      TotalLengthSum(runs, widths);
    }
    forall c | c != '-' && c != '+' ensures c !in Separator(widths) {
      JoinByAvoids(runs, "-+-", c);
    }
  }

  /** When every displayed row has one cell per header, all lines of the
      table have the same length. */
  lemma LinesAligned(headers: seq<string>, rows: seq<seq<string>>)
    requires forall k :: 0 <= k < |rows| ==> |rows[k]| == |headers|
    ensures var widths := ColumnWidths(headers, rows);
            var lines := TableLines(headers, rows, widths);
            forall l :: 0 <= l < |lines| ==> |lines[l]| == TableWidth(widths)
  {
    var widths := ColumnWidths(headers, rows);
    var lines := TableLines(headers, rows, widths);
    forall i | 0 <= i < |headers| ensures widths[i] >= |headers[i]|
      && forall k :: 0 <= k < |rows| && i < |rows[k]| ==> widths[i] >= |rows[k][i]| {
      WidthIsMax(headers, rows, |rows|, i);
    }
    PaddedLineWidth(headers, widths);
    SeparatorWidth(widths);
    forall k | 0 <= k < |rows| ensures |PaddedLine(rows[k], widths)| == TableWidth(widths) {
      PaddedLineWidth(rows[k], widths);
    }
    forall l | 0 <= l < |lines| ensures |lines[l]| == TableWidth(widths) {
      if l >= 2 {
        assert lines[l] == PaddedLine(rows[l - 2], widths);
      }
    }
  }

  /** No text of the table contains a line break. */
  predicate NoNewlines(headers: seq<string>, rows: seq<seq<string>>)
  {
    && (forall i :: 0 <= i < |headers| ==> '\n' !in headers[i])
    && (forall k, i :: 0 <= k < |rows| && 0 <= i < |rows[k]| ==> '\n' !in rows[k][i])
  }

  lemma PaddedLineNoNewline(cells: seq<string>, widths: seq<int>)
    requires |cells| <= |widths|
    requires forall i :: 0 <= i < |cells| ==> '\n' !in cells[i]
    ensures '\n' !in PaddedLine(cells, widths)
  {
    var padded := seq(|cells|, i requires 0 <= i < |cells| => LJust(cells[i], widths[i]));
    forall i | 0 <= i < |cells| ensures '\n' !in padded[i] {
      var p := padded[i];
      assert p == cells[i] + p[|cells[i]|..];
      assert '\n' !in p[|cells[i]|..];
    }
    JoinByAvoids(padded, " | ", '\n');
  }

  /** Without line breaks in the cells, the output splits back into exactly
      the header line, the separator and one line per displayed row. */
  lemma TableLineCount(headers: seq<string>, rows: seq<seq<string>>, widths: seq<int>)
    requires |widths| == |headers| && RowsFit(headers, rows) && NoNewlines(headers, rows)
    ensures Split(JoinBy(TableLines(headers, rows, widths), "\n"), '\n') == TableLines(headers, rows, widths)
    ensures |Split(JoinBy(TableLines(headers, rows, widths), "\n"), '\n')| == 2 + |rows|
  {
    var lines := TableLines(headers, rows, widths);
    PaddedLineNoNewline(headers, widths);
    var runs := seq(|widths|, i requires 0 <= i < |widths| => Repeat('-', widths[i]));
    JoinByAvoids(runs, "-+-", '\n');
    forall l | 0 <= l < |lines| ensures '\n' !in lines[l] {
      if l >= 2 {
        PaddedLineNoNewline(rows[l - 2], widths);
      }
    }
    SplitJoin(lines, '\n');
  }
}
