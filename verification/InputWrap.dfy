/** Soft wrapping of the input line, cursor positions in the wrapped lines, and the viewport
    of four rows. `width` stands for the Unicode width table of the terminal. */
module InputWrap {
  import opened Text

  datatype Line = Line(text: string, startChar: nat, endChar: nat, charColumns: seq<nat>)

  /** `tui_char_display_width`. */
  function DisplayWidth(width: char -> nat, ch: char): (w: nat)
    ensures w >= 1 && (width(ch) > 0 ==> w == width(ch)) && (width(ch) == 0 ==> w == 1)
  {
    Max(width(ch), 1)
  }

  /** The display column after the first `k` characters of a line, where no character counts
      for more than the whole line. */
  function ColumnAt(width: char -> nat, cols: nat, text: string, k: nat): nat
    requires k <= |text|
  {
    if k == 0 then 0 else ColumnAt(width, cols, text, k - 1) + Min(DisplayWidth(width, text[k - 1]), cols)
  }

  predicate LineOk(width: char -> nat, cols: nat, input: string, line: Line) {
    && line.startChar <= line.endChar <= |input|
    && line.text == input[line.startChar..line.endChar]
    && '\n' !in line.text
    && |line.charColumns| == |line.text| + 1
    && (forall k :: 0 <= k <= |line.text| ==> line.charColumns[k] == ColumnAt(width, cols, line.text, k))
    && line.charColumns[|line.text|] <= cols
  }

  predicate HardBreak(input: string, line: Line, next: Line) {
    line.endChar < |input| && input[line.endChar] == '\n' && next.startChar == line.endChar + 1
  }

  /** The line is not empty and the next character does not fit on it. */
  predicate SoftBreak(width: char -> nat, cols: nat, input: string, line: Line, next: Line) {
    && line.endChar < |input| && input[line.endChar] != '\n' && next.startChar == line.endChar
    && line.text != ""
    && |line.charColumns| == |line.text| + 1
    && line.charColumns[|line.text|] + Min(DisplayWidth(width, input[line.endChar]), cols) > cols
  }

  /** What wrapping promises: the lines cover the input in order, they fit, and they break
      only at newlines or where the next character would not fit. */
  predicate Wrapped(width: char -> nat, cols: nat, input: string, lines: seq<Line>) {
    && lines != []
    && lines[0].startChar == 0
    && lines[|lines| - 1].endChar == |input|
    && (forall i :: 0 <= i < |lines| ==> LineOk(width, cols, input, lines[i]))
    && (forall i :: 0 <= i < |lines| - 1 ==>
          HardBreak(input, lines[i], lines[i + 1]) || SoftBreak(width, cols, input, lines[i], lines[i + 1]))
  }

  /** The same for the lines pushed so far, with the next line starting at `start`. */
  predicate WrappedUpTo(width: char -> nat, cols: nat, input: string, lines: seq<Line>, start: nat) {
    && (lines == [] ==> start == 0)
    && (lines != [] ==> lines[0].startChar == 0)
    && (forall i :: 0 <= i < |lines| ==> LineOk(width, cols, input, lines[i]))
    && (forall i :: 0 <= i < |lines| - 1 ==>
          HardBreak(input, lines[i], lines[i + 1]) || SoftBreak(width, cols, input, lines[i], lines[i + 1]))
    && (lines != [] ==>
          var next := Line("", start, start, [0]);
          HardBreak(input, lines[|lines| - 1], next) || SoftBreak(width, cols, input, lines[|lines| - 1], next))
  }

  lemma {:induction false} ColumnAtPrefix(width: char -> nat, cols: nat, text: string, more: string, k: nat)
    requires k <= |text|
    ensures ColumnAt(width, cols, text + more, k) == ColumnAt(width, cols, text, k)
  {
    if k > 0 { ColumnAtPrefix(width, cols, text, more, k - 1); }
  }

  lemma LineOkSnoc(width: char -> nat, cols: nat, input: string, line: Line, ch: char)
    requires LineOk(width, cols, input, line) && |line.charColumns| == |line.text| + 1
    requires line.endChar < |input| && input[line.endChar] == ch != '\n'
    requires var column := line.charColumns[|line.text|] + Min(DisplayWidth(width, ch), cols); column <= cols
    ensures LineOk(width, cols, input,
                   Line(line.text + [ch], line.startChar, line.endChar + 1,
                        line.charColumns + [line.charColumns[|line.text|] + Min(DisplayWidth(width, ch), cols)]))
  {
    var text := line.text + [ch];
    assert input[line.startChar..line.endChar + 1] == text;
    forall k | 0 <= k <= |line.text| ensures ColumnAt(width, cols, text, k) == ColumnAt(width, cols, line.text, k) {
      ColumnAtPrefix(width, cols, line.text, [ch], k);
    }
  }

  lemma PushLine(width: char -> nat, cols: nat, input: string, lines: seq<Line>, line: Line, start: nat)
    requires WrappedUpTo(width, cols, input, lines, line.startChar) && LineOk(width, cols, input, line)
    requires var next := Line("", start, start, [0]);
             HardBreak(input, line, next) || SoftBreak(width, cols, input, line, next)
    ensures WrappedUpTo(width, cols, input, lines + [line], start)
  {
    hide LineOk;
  }

  lemma FinishLines(width: char -> nat, cols: nat, input: string, lines: seq<Line>, line: Line)
    requires WrappedUpTo(width, cols, input, lines, line.startChar) && LineOk(width, cols, input, line)
    requires line.endChar == |input|
    ensures Wrapped(width, cols, input, lines + [line])
  {
    hide LineOk;
  }

  lemma EmptyLineOk(width: char -> nat, cols: nat, input: string, start: nat)
    requires start <= |input|
    ensures LineOk(width, cols, input, Line("", start, start, [0]))
  {
  }

  method WrapInputLines(width: char -> nat, input: string, availableCols: nat) returns (lines: seq<Line>)
    ensures Wrapped(width, Max(availableCols, 1), input, lines)
  {
    hide LineOk, WrappedUpTo, Wrapped, DisplayWidth;
    var cols: nat := Max(availableCols, 1);
    lines := [];
    var lineText, lineCharColumns: seq<nat> := "", [0];
    var lineStartChar, displayCol, index := 0, 0, 0;
    EmptyLineOk(width, cols, input, 0);
    NoLinesYet(width, cols, input);
    while index < |input|
      invariant lineStartChar <= index <= |input| && |lineCharColumns| == |lineText| + 1
      invariant LineOk(width, cols, input, Line(lineText, lineStartChar, index, lineCharColumns))
      invariant displayCol == lineCharColumns[|lineText|] <= cols
      invariant displayCol == 0 ==> lineText == ""
      invariant lineText == "" ==> displayCol == 0
      invariant WrappedUpTo(width, cols, input, lines, lineStartChar)
    {
      var ch := input[index];
      if ch == '\n' {
        PushLine(width, cols, input, lines, Line(lineText, lineStartChar, index, lineCharColumns), index + 1);
        lines := lines + [Line(lineText, lineStartChar, index, lineCharColumns)];
        index := index + 1;
        lineText, lineStartChar, lineCharColumns, displayCol := "", index, [0], 0;
        EmptyLineOk(width, cols, input, index);
      } else {
        var charWidth := Min(DisplayWidth(width, ch), cols);
        if displayCol > 0 && displayCol + charWidth > cols {
          PushLine(width, cols, input, lines, Line(lineText, lineStartChar, index, lineCharColumns), index);
          lines := lines + [Line(lineText, lineStartChar, index, lineCharColumns)];
          lineText, lineStartChar, lineCharColumns, displayCol := "", index, [0], 0;
          EmptyLineOk(width, cols, input, index);
        }
        LineOkSnoc(width, cols, input, Line(lineText, lineStartChar, index, lineCharColumns), ch);
        lineText := lineText + [ch];
        displayCol := displayCol + charWidth;
        lineCharColumns := lineCharColumns + [displayCol];
        index := index + 1;
      }
    }
    FinishLines(width, cols, input, lines, Line(lineText, lineStartChar, |input|, lineCharColumns));
    lines := lines + [Line(lineText, lineStartChar, |input|, lineCharColumns)];
    // The source pushes an empty line here when there is none; that never happens.
    if lines == [] {
      assert false;
    }
  }

  lemma NoLinesYet(width: char -> nat, cols: nat, input: string)
    ensures WrappedUpTo(width, cols, input, [], 0)
  {
  }

  // ---- the promise determines the lines

  lemma {:induction false} ColumnsIncrease(width: char -> nat, cols: nat, text: string, j: nat, k: nat)
    requires j <= k <= |text| && cols >= 1
    ensures ColumnAt(width, cols, text, j) + (k - j) <= ColumnAt(width, cols, text, k)
  {
    if j < k { ColumnsIncrease(width, cols, text, j, k - 1); }
  }

  /** Column tables strictly increase. */
  lemma LineColumnsIncrease(width: char -> nat, cols: nat, input: string, line: Line, j: nat, k: nat)
    requires LineOk(width, cols, input, line) && cols >= 1
    requires j < k <= |line.text|
    ensures line.charColumns[j] < line.charColumns[k]
  {
    ColumnsIncrease(width, cols, line.text, j, k);
  }

  /** A line that goes on where a shorter one ends shows that the next character would fit there. */
  lemma LongerLineFits(width: char -> nat, cols: nat, input: string, x: Line, y: Line)
    requires cols >= 1 && LineOk(width, cols, input, x) && LineOk(width, cols, input, y)
    requires x.startChar == y.startChar && x.endChar < y.endChar
    ensures input[x.endChar] != '\n'
    ensures x.charColumns[|x.text|] + Min(DisplayWidth(width, input[x.endChar]), cols) <= cols
  {
    hide DisplayWidth;
    var n := |x.text|;
    assert y.text[n] == input[x.endChar];
    assert y.text == x.text + y.text[n..];
    ColumnAtPrefix(width, cols, x.text, y.text[n..], n);
    ColumnsIncrease(width, cols, y.text, n + 1, |y.text|);
  }

  lemma BreakBeforeEnd(width: char -> nat, cols: nat, input: string, lines: seq<Line>, i: nat)
    requires Wrapped(width, cols, input, lines) && i + 1 < |lines|
    ensures lines[i].endChar < |input|
    ensures HardBreak(input, lines[i], lines[i + 1]) || SoftBreak(width, cols, input, lines[i], lines[i + 1])
  {
    hide LineOk;
  }

  /** Of two lines of wrapped layouts that start at the same place neither is shorter. */
  lemma LineEndsAgree(width: char -> nat, cols: nat, input: string, a: seq<Line>, b: seq<Line>, i: nat)
    requires cols >= 1 && Wrapped(width, cols, input, a) && Wrapped(width, cols, input, b)
    requires i < |a| && i < |b| && a[i].startChar == b[i].startChar
    ensures a[i].endChar >= b[i].endChar
  {
    hide DisplayWidth, ColumnAt;
    assert LineOk(width, cols, input, a[i]) && LineOk(width, cols, input, b[i]);
    if i + 1 < |a| {
      BreakBeforeEnd(width, cols, input, a, i);
      if a[i].endChar < b[i].endChar {
        LongerLineFits(width, cols, input, a[i], b[i]);
      }
    }
  }

  lemma SameLine(width: char -> nat, cols: nat, input: string, x: Line, y: Line)
    requires LineOk(width, cols, input, x) && LineOk(width, cols, input, y)
    requires x.startChar == y.startChar && x.endChar == y.endChar
    ensures x == y
  {
    hide ColumnAt;
    assert x.charColumns == y.charColumns;
  }

  lemma {:induction false} LinesAgree(width: char -> nat, cols: nat, input: string, a: seq<Line>, b: seq<Line>, i: nat)
    requires cols >= 1 && Wrapped(width, cols, input, a) && Wrapped(width, cols, input, b)
    requires i < |a| && i < |b|
    ensures a[i] == b[i]
  {
    hide LineOk, DisplayWidth;
    if i > 0 {
      LinesAgree(width, cols, input, a, b, i - 1);
      BreakBeforeEnd(width, cols, input, a, i - 1);
      BreakBeforeEnd(width, cols, input, b, i - 1);
    }
    LineEndsAgree(width, cols, input, a, b, i);
    LineEndsAgree(width, cols, input, b, a, i);
    SameLine(width, cols, input, a[i], b[i]);
  }

  /** Only the last line ends at the end of the input, unless a newline ends it. */
  lemma SameCount(width: char -> nat, cols: nat, input: string, a: seq<Line>, b: seq<Line>)
    requires cols >= 1 && Wrapped(width, cols, input, a) && Wrapped(width, cols, input, b)
    ensures |a| >= |b|
  {
    if |a| < |b| {
      BreakBeforeEnd(width, cols, input, b, |a| - 1);
      LinesAgree(width, cols, input, a, b, |a| - 1);
    }
  }

  /** Wrapping is greedy, so the promise leaves exactly one result. */
  lemma WrappedIsUnique(width: char -> nat, cols: nat, input: string, a: seq<Line>, b: seq<Line>)
    requires cols >= 1 && Wrapped(width, cols, input, a) && Wrapped(width, cols, input, b)
    ensures a == b
  {
    SameCount(width, cols, input, a, b);
    SameCount(width, cols, input, b, a);
    forall i | 0 <= i < |a| ensures a[i] == b[i] {
      LinesAgree(width, cols, input, a, b, i);
    }
  }

  /** The text of the lines, with a newline where the next line does not start at the end. */
  function Rejoined(lines: seq<Line>): string {
    if lines == [] then ""
    else if |lines| == 1 then lines[0].text
    else lines[0].text + (if lines[1].startChar == lines[0].endChar then "" else "\n") + Rejoined(lines[1..])
  }

  /** The input from a line on is its text, the newline that ends it if any, and the input
      from the next line on. */
  lemma InputFromLine(width: char -> nat, cols: nat, input: string, lines: seq<Line>, i: nat)
    requires Wrapped(width, cols, input, lines) && i + 1 < |lines|
    ensures lines[i].startChar <= |input| && lines[i + 1].startChar <= |input|
    ensures input[lines[i].startChar..]
         == lines[i].text + (if lines[i + 1].startChar == lines[i].endChar then "" else "\n") + input[lines[i + 1].startChar..]
  {
    hide ColumnAt, DisplayWidth;
    BreakBeforeEnd(width, cols, input, lines, i);
    var line := lines[i];
    assert LineOk(width, cols, input, line);
    assert input[line.startChar..] == line.text + input[line.endChar..];
    if lines[i + 1].startChar != line.endChar {
      assert input[line.endChar..] == "\n" + input[lines[i + 1].startChar..];
    }
  }

  lemma {:induction false} RejoinedFrom(width: char -> nat, cols: nat, input: string, lines: seq<Line>, i: nat)
    requires Wrapped(width, cols, input, lines) && i < |lines|
    ensures lines[i].startChar <= |input| && Rejoined(lines[i..]) == input[lines[i].startChar..]
    decreases |lines| - i
  {
    if i == |lines| - 1 {
      assert LineOk(width, cols, input, lines[i]);
      assert lines[i..] == [lines[i]];
    } else {
      hide Wrapped;
      RejoinedFrom(width, cols, input, lines, i + 1);
      InputFromLine(width, cols, input, lines, i);
      assert lines[i..][1..] == lines[i + 1..];
    }
  }

  /** Wrapping loses nothing: newlines are exactly the breaks that skip a character. */
  lemma WrapIsLossless(width: char -> nat, cols: nat, input: string, lines: seq<Line>)
    requires Wrapped(width, cols, input, lines)
    ensures Rejoined(lines) == input
  {
    RejoinedFrom(width, cols, input, lines, 0);
    assert lines[0..] == lines;
  }

  // ---- cursor positions

  /** The first line that holds the cursor index. */
  function LineOf(lines: seq<Line>, cursor: nat): (r: Option<nat>)
    ensures r.Some? ==> r.value < |lines| && lines[r.value].startChar <= cursor <= lines[r.value].endChar
    ensures r.Some? ==> forall j :: 0 <= j < r.value ==> !(lines[j].startChar <= cursor <= lines[j].endChar)
    ensures r.None? ==> forall j :: 0 <= j < |lines| ==> !(lines[j].startChar <= cursor <= lines[j].endChar)
  {
    if lines == [] then None
    else if lines[0].startChar <= cursor <= lines[0].endChar then Some(0)
    else match LineOf(lines[1..], cursor) case None => None case Some(i) => Some(i + 1)
  }

  function CursorPosition(lines: seq<Line>, cursor: nat): (nat, nat)
    requires lines != []
  {
    var lineIndex := match LineOf(lines, cursor) case Some(i) => i case None => SatSub(|lines|, 1);
    var line := lines[lineIndex];
    var inLine := SatSub(cursor, line.startChar);
    var column := if inLine < |line.charColumns| then line.charColumns[inLine]
                  else if line.charColumns != [] then line.charColumns[|line.charColumns| - 1] else 0;
    (lineIndex, column)
  }

  function AbsDiff(a: nat, b: nat): nat {
    if a <= b then b - a else a - b
  }

  /** Whether a column table entry replaces the best one so far. No entry is further away than
      the initial distance `usize::MAX`, so the first entry always does. */
  predicate Better(columns: seq<nat>, desired: nat, k: nat, best: nat)
    requires k < |columns| && best < |columns|
  {
    || AbsDiff(columns[k], desired) < AbsDiff(columns[best], desired)
    || (AbsDiff(columns[k], desired) == AbsDiff(columns[best], desired) && columns[k] <= desired)
  }

  /** The offset that the search over the first `n` entries ends with. */
  function BestOffset(columns: seq<nat>, desired: nat, n: nat): (best: nat)
    requires 1 <= n <= |columns|
    ensures best < n
  {
    if n == 1 then 0
    else
      var best := BestOffset(columns, desired, n - 1);
      if Better(columns, desired, n - 1, best) then n - 1 else best
  }

  function IndexForLineColumn(lines: seq<Line>, lineIndex: nat, desired: nat): nat {
    if lineIndex >= |lines| then 0
    else
      var line := lines[lineIndex];
      var best := if line.charColumns == [] then 0 else BestOffset(line.charColumns, desired, |line.charColumns|);
      Min(line.startChar + best, line.endChar)
  }

  method CursorIndexForLineColumn(lines: seq<Line>, lineIndex: nat, desiredColumn: nat) returns (index: nat)
    ensures index == IndexForLineColumn(lines, lineIndex, desiredColumn)
  {
    if lineIndex >= |lines| {
      return 0;
    }
    var line := lines[lineIndex];
    var bestCharIndex := line.startChar;
    var bestDistance: Option<nat> := None;
    for offset := 0 to |line.charColumns|
      invariant offset == 0 ==> bestDistance == None && bestCharIndex == line.startChar
      invariant offset > 0 ==>
                  && bestCharIndex == line.startChar + BestOffset(line.charColumns, desiredColumn, offset)
                  && bestDistance == Some(AbsDiff(line.charColumns[bestCharIndex - line.startChar], desiredColumn))
    {
      var column := line.charColumns[offset];
      var distance := AbsDiff(column, desiredColumn);
      if bestDistance.None? || distance < bestDistance.value || (distance == bestDistance.value && column <= desiredColumn) {
        bestDistance := Some(distance);
        bestCharIndex := line.startChar + offset;
      }
    }
    index := Min(bestCharIndex, line.endChar);
  }

  /** In an increasing table the search finds the nearest column, the left one of two. */
  lemma {:induction false} BestOffsetIsNearest(columns: seq<nat>, desired: nat, n: nat)
    requires 1 <= n <= |columns|
    requires forall j, k :: 0 <= j < k < n ==> columns[j] < columns[k]
    ensures var best := BestOffset(columns, desired, n);
            && (forall k :: 0 <= k < n ==> AbsDiff(columns[best], desired) <= AbsDiff(columns[k], desired))
            && (forall k :: 0 <= k < best ==> AbsDiff(columns[best], desired) < AbsDiff(columns[k], desired))
  {
    if n > 1 {
      BestOffsetIsNearest(columns, desired, n - 1);
    }
  }

  lemma LineBest(width: char -> nat, cols: nat, input: string, line: Line, desired: nat)
    requires LineOk(width, cols, input, line) && cols >= 1
    ensures var best := BestOffset(line.charColumns, desired, |line.charColumns|);
            && line.startChar + best <= line.endChar
            && (forall k :: 0 <= k <= |line.text| ==> AbsDiff(line.charColumns[best], desired) <= AbsDiff(line.charColumns[k], desired))
            && (forall k :: 0 <= k < best ==> AbsDiff(line.charColumns[best], desired) < AbsDiff(line.charColumns[k], desired))
  {
    forall j, k | 0 <= j < k < |line.charColumns| ensures line.charColumns[j] < line.charColumns[k] {
      LineColumnsIncrease(width, cols, input, line, j, k);
    }
    BestOffsetIsNearest(line.charColumns, desired, |line.charColumns|);
  }

  lemma {:induction false} SomeLineHolds(width: char -> nat, cols: nat, input: string, lines: seq<Line>, cursor: nat, i: nat)
    requires Wrapped(width, cols, input, lines) && i < |lines| && lines[i].startChar <= cursor <= |input|
    ensures exists j :: i <= j < |lines| && lines[j].startChar <= cursor <= lines[j].endChar
    decreases |lines| - i
  {
    if cursor > lines[i].endChar {
      assert HardBreak(input, lines[i], lines[i + 1]) || SoftBreak(width, cols, input, lines[i], lines[i + 1]);
      SomeLineHolds(width, cols, input, lines, cursor, i + 1);
    }
  }

  lemma PositionOf(width: char -> nat, cols: nat, input: string, lines: seq<Line>, cursor: nat)
    requires cols >= 1 && Wrapped(width, cols, input, lines) && cursor <= |input|
    ensures var (lineIndex, column) := CursorPosition(lines, cursor);
            && LineOf(lines, cursor) == Some(lineIndex)
            && column == lines[lineIndex].charColumns[cursor - lines[lineIndex].startChar]
            && column <= cols
  {
    SomeLineHolds(width, cols, input, lines, cursor, 0);
    var (lineIndex, column) := CursorPosition(lines, cursor);
    var line := lines[lineIndex];
    assert LineOk(width, cols, input, line);
    ColumnsIncrease(width, cols, line.text, cursor - line.startChar, |line.text|);
  }

  /** Going to the position of a cursor index and back gives the index. */
  lemma CursorInverse(width: char -> nat, cols: nat, input: string, lines: seq<Line>, cursor: nat)
    requires cols >= 1 && Wrapped(width, cols, input, lines) && cursor <= |input|
    ensures var (lineIndex, column) := CursorPosition(lines, cursor);
            IndexForLineColumn(lines, lineIndex, column) == cursor
  {
    PositionOf(width, cols, input, lines, cursor);
    var (lineIndex, column) := CursorPosition(lines, cursor);
    var line := lines[lineIndex];
    var offset := cursor - line.startChar;
    LineBest(width, cols, input, line, column);
    var best := BestOffset(line.charColumns, column, |line.charColumns|);
    if best < offset {
      LineColumnsIncrease(width, cols, input, line, best, offset);
    }
  }

  // ---- vertical movement

  /** `move_tui_cursor_vertically` on an already wrapped input. */
  function MoveVertically(lines: seq<Line>, cursor: nat, direction: int): Option<nat>
    requires lines != []
  {
    var (lineIndex, column) := CursorPosition(lines, cursor);
    if lineIndex + direction < 0 || lineIndex + direction >= |lines| then None
    else Some(IndexForLineColumn(lines, lineIndex + direction, column))
  }

  function VisibleWidth(totalCols: nat): (w: nat)
    ensures w >= 1
  {
    Max(SatSub(totalCols, 3), 1)
  }

  method MoveCursorVertically(width: char -> nat, input: string, cursorIndex: nat, totalCols: nat, direction: int)
    returns (next: Option<nat>, ghost lines: seq<Line>)
    ensures Wrapped(width, VisibleWidth(totalCols), input, lines)
    ensures next == MoveVertically(lines, Min(cursorIndex, |input|), direction)
    ensures next.Some? ==> next.value <= |input|
  {
    var visibleWidth := VisibleWidth(totalCols);
    var clampedCursor: nat := Min(cursorIndex, |input|);
    var layout := WrapInputLines(width, input, visibleWidth);
    lines := layout;
    var (lineIndex, column) := CursorPosition(layout, clampedCursor);
    var targetLine: nat;
    if direction < 0 {
      if lineIndex < -direction {
        return None, layout;
      }
      targetLine := lineIndex - -direction;
    } else {
      targetLine := lineIndex + direction;
    }
    if targetLine >= |layout| {
      return None, layout;
    }
    var index := CursorIndexForLineColumn(layout, targetLine, column);
    return Some(index), layout;
  }

  /** Two lines that share the index where one ends and the next starts. */
  predicate Continues(lines: seq<Line>, i: nat)
    requires i < |lines|
  {
    i > 0 && lines[i - 1].endChar == lines[i].startChar
  }

  lemma {:induction false} EarlierLinesEndBefore(width: char -> nat, cols: nat, input: string, lines: seq<Line>, j: nat, i: nat)
    requires Wrapped(width, cols, input, lines) && j < i < |lines|
    ensures lines[j].endChar <= lines[i].startChar
    ensures lines[j].endChar == lines[i].startChar ==> j == i - 1
    decreases i - j
  {
    assert HardBreak(input, lines[j], lines[j + 1]) || SoftBreak(width, cols, input, lines[j], lines[j + 1]);
    if j + 1 < i {
      EarlierLinesEndBefore(width, cols, input, lines, j + 1, i);
      assert LineOk(width, cols, input, lines[j + 1]);
      assert HardBreak(input, lines[j + 1], lines[j + 2]) || SoftBreak(width, cols, input, lines[j + 1], lines[j + 2]);
      assert HardBreak(input, lines[j], lines[j + 1]) || lines[j + 1].text != "" || lines[j + 1].endChar < lines[j + 2].startChar;
    }
  }

  /** An index of a line is shown on that line unless the line above ends there. */
  lemma ShownOnLine(width: char -> nat, cols: nat, input: string, lines: seq<Line>, target: nat, index: nat)
    requires cols >= 1 && Wrapped(width, cols, input, lines)
    requires target < |lines| && lines[target].startChar <= index <= lines[target].endChar
    ensures CursorPosition(lines, index).0 == target <==> !(Continues(lines, target) && index == lines[target].startChar)
  {
    hide ColumnAt, DisplayWidth;
    var above := Continues(lines, target) && index == lines[target].startChar;
    forall j | 0 <= j < target && !(above && j == target - 1) ensures !(lines[j].startChar <= index <= lines[j].endChar) {
      EarlierLinesEndBefore(width, cols, input, lines, j, target);
    }
    if above {
      assert LineOk(width, cols, input, lines[target - 1]);
      assert lines[target - 1].startChar <= index <= lines[target - 1].endChar;
    }
  }

  /** The first column of a line is the nearest one up to half of its first character. */
  lemma FirstColumnIsBest(width: char -> nat, cols: nat, input: string, line: Line, desired: nat)
    requires cols >= 1 && LineOk(width, cols, input, line)
    ensures BestOffset(line.charColumns, desired, |line.charColumns|) == 0
       <==> (line.text == "" || 2 * desired <= line.charColumns[1])
  {
    hide DisplayWidth, BestOffset;
    LineBest(width, cols, input, line, desired);
    var best := BestOffset(line.charColumns, desired, |line.charColumns|);
    assert line.charColumns[0] == 0;
    if best > 1 {
      LineColumnsIncrease(width, cols, input, line, 1, best);
    }
  }

  /** A vertical move goes to a nearest column of the target line. It is shown on that line
      unless the line continues the one above and its first column is the nearest one: that
      index is shown at the end of the line above. */
  lemma VerticalMoveLands(width: char -> nat, cols: nat, input: string, lines: seq<Line>, cursor: nat, direction: int)
    requires cols >= 1 && Wrapped(width, cols, input, lines) && cursor <= |input|
    ensures var (from, column) := CursorPosition(lines, cursor);
            var target := from + direction;
            var moved := MoveVertically(lines, cursor, direction);
            && (moved.Some? <==> 0 <= target < |lines|)
            && (moved.Some? ==>
                  var line := lines[target];
                  && line.startChar <= moved.value <= line.endChar
                  && |line.charColumns| == |line.text| + 1
                  && (forall k :: 0 <= k <= |line.text| ==>
                        AbsDiff(line.charColumns[moved.value - line.startChar], column) <= AbsDiff(line.charColumns[k], column))
                  && (CursorPosition(lines, moved.value).0 == target <==>
                        !(Continues(lines, target) && (line.text == "" || 2 * column <= line.charColumns[1]))))
  {
    hide ColumnAt, DisplayWidth, BestOffset, AbsDiff;
    var (from, column) := CursorPosition(lines, cursor);
    var target := from + direction;
    if 0 <= target < |lines| {
      var line := lines[target];
      LineBest(width, cols, input, line, column);
      FirstColumnIsBest(width, cols, input, line, column);
      ShownOnLine(width, cols, input, lines, target, IndexForLineColumn(lines, target, column));
    }
  }

  // ---- characters of one column

  predicate UnitWidths(width: char -> nat, text: string) {
    forall i :: 0 <= i < |text| ==> DisplayWidth(width, text[i]) == 1
  }

  /** A line whose characters take one column each. */
  function UnitLine(input: string, start: nat, end: nat): (line: Line)
    requires start <= end <= |input|
    ensures |line.charColumns| == end - start + 1 && forall k :: 0 <= k <= end - start ==> line.charColumns[k] == k
  {
    Line(input[start..end], start, end, seq(end - start + 1, k requires 0 <= k => k))
  }

  lemma {:induction false} UnitColumns(width: char -> nat, cols: nat, text: string, k: nat)
    requires UnitWidths(width, text) && cols >= 1 && k <= |text|
    ensures ColumnAt(width, cols, text, k) == k
  {
    if k > 0 { UnitColumns(width, cols, text, k - 1); }
  }

  lemma UnitLineOk(width: char -> nat, cols: nat, input: string, start: nat, end: nat)
    requires UnitWidths(width, input) && cols >= 1 && start <= end <= |input| && end - start <= cols
    requires '\n' !in input[start..end]
    ensures LineOk(width, cols, input, UnitLine(input, start, end))
  {
    hide ColumnAt;
    var line := UnitLine(input, start, end);
    forall k | 0 <= k <= |line.text| ensures line.charColumns[k] == ColumnAt(width, cols, line.text, k) {
      UnitColumns(width, cols, line.text, k);
    }
  }

  /** Text of more than one and at most two lines breaks once, behind the first `cols` characters. */
  lemma TwoUnitLines(width: char -> nat, cols: nat, input: string, lines: seq<Line>)
    requires UnitWidths(width, input) && cols >= 1 && cols < |input| <= 2 * cols && '\n' !in input
    requires Wrapped(width, cols, input, lines)
    ensures lines == [UnitLine(input, 0, cols), UnitLine(input, cols, |input|)]
  {
    hide LineOk;
    var expected := [UnitLine(input, 0, cols), UnitLine(input, cols, |input|)];
    UnitLineOk(width, cols, input, 0, cols);
    UnitLineOk(width, cols, input, cols, |input|);
    assert input[cols] in input;
    assert SoftBreak(width, cols, input, expected[0], expected[1]);
    assert Wrapped(width, cols, input, expected);
    WrappedIsUnique(width, cols, input, lines, expected);
  }

  /** On a line of one-column characters the search finds the column itself. */
  lemma UnitBest(width: char -> nat, cols: nat, input: string, start: nat, end: nat, column: nat)
    requires UnitWidths(width, input) && cols >= 1 && start <= end <= |input| && end - start <= cols
    requires '\n' !in input[start..end] && column <= end - start
    ensures var columns := UnitLine(input, start, end).charColumns; BestOffset(columns, column, |columns|) == column
  {
    hide ColumnAt, BestOffset;
    UnitLineOk(width, cols, input, start, end);
    var line := UnitLine(input, start, end);
    LineBest(width, cols, input, line, column);
    assert AbsDiff(line.charColumns[column], column) == 0;
  }

  /** A move up from the third line that goes to the second one and is shown on the first: in
      a width of three the characters `abcdef` and a newline take the lines `abc`, `def` and an
      empty one, and the first column of `def` is the index where `abc` ends. */
  lemma MoveShownOnLineAbove(width: char -> nat, lines: seq<Line>)
    requires UnitWidths(width, "abcdef\n") && Wrapped(width, 3, "abcdef\n", lines)
    ensures CursorPosition(lines, 7) == (2, 0)
    ensures MoveVertically(lines, 7, -1) == Some(3)
    ensures CursorPosition(lines, 3) == (0, 3)
  {
    hide LineOk, BestOffset;
    var input := "abcdef\n";
    var expected := ThreeUnitLines(width);
    WrappedIsUnique(width, 3, input, lines, expected);
    UnitBest(width, 3, input, 3, 6, 0);
  }

  lemma ThreeUnitLines(width: char -> nat) returns (lines: seq<Line>)
    requires UnitWidths(width, "abcdef\n")
    ensures var input := "abcdef\n"; lines == [UnitLine(input, 0, 3), UnitLine(input, 3, 6), UnitLine(input, 7, 7)]
    ensures Wrapped(width, 3, "abcdef\n", lines)
  {
    hide LineOk, ColumnAt, DisplayWidth;
    var input := "abcdef\n";
    lines := [UnitLine(input, 0, 3), UnitLine(input, 3, 6), UnitLine(input, 7, 7)];
    assert input[0..3] == "abc" && input[3..6] == "def" && input[7..7] == "";
    UnitLineOk(width, 3, input, 0, 3);
    UnitLineOk(width, 3, input, 3, 6);
    UnitLineOk(width, 3, input, 7, 7);
    assert DisplayWidth(width, input[3]) == 1;
    assert SoftBreak(width, 3, input, lines[0], lines[1]);
    assert HardBreak(input, lines[1], lines[2]);
  }

  // ---- the viewport

  datatype InputViewport = InputViewport(visibleLines: seq<string>, cursorRowOffset: nat, cursorColumn: nat)

  const INPUT_VIEWPORT_ROWS: nat := 4
  const CURSOR_BASE_COLUMN: nat := 3

  function ViewportStart(count: nat, cursorLine: nat): nat {
    if count <= INPUT_VIEWPORT_ROWS then 0
    else
      var start := SatSub(cursorLine, INPUT_VIEWPORT_ROWS / 2);
      var end := Min(start + INPUT_VIEWPORT_ROWS, count);
      if SatSub(end, start) < INPUT_VIEWPORT_ROWS then SatSub(end, INPUT_VIEWPORT_ROWS) else start
  }

  lemma ViewportStartHolds(count: nat, cursorLine: nat)
    requires cursorLine < count
    ensures var start := ViewportStart(count, cursorLine);
            && start <= cursorLine < start + Min(INPUT_VIEWPORT_ROWS, count)
            && start + Min(INPUT_VIEWPORT_ROWS, count) <= count
            && (cursorLine < start + 2 ==> start == 0)
            && (cursorLine > start + 2 ==> start + Min(INPUT_VIEWPORT_ROWS, count) == count)
  {
  }

  /** The viewport shows the line of the cursor, two rows down except at the ends of the input,
      is as full as the input allows, and the cursor column fits in a terminal of at least four
      columns. */
  method TuiInputViewport(width: char -> nat, input: string, cursorIndex: nat, totalCols: nat)
    returns (viewport: InputViewport, ghost lines: seq<Line>)
    ensures Wrapped(width, VisibleWidth(totalCols), input, lines)
    ensures viewport.cursorRowOffset < |viewport.visibleLines| == Min(INPUT_VIEWPORT_ROWS, |lines|)
    ensures var (cursorLine, column) := CursorPosition(lines, Min(cursorIndex, |input|));
            && viewport.cursorRowOffset <= cursorLine
            && viewport.cursorColumn == CURSOR_BASE_COLUMN + column
            && var top := cursorLine - viewport.cursorRowOffset;
               && top + |viewport.visibleLines| <= |lines|
               && (forall i :: 0 <= i < |viewport.visibleLines| ==> viewport.visibleLines[i] == lines[top + i].text)
               && (viewport.cursorRowOffset < 2 ==> top == 0)
               && (viewport.cursorRowOffset > 2 ==> top + |viewport.visibleLines| == |lines|)
    ensures totalCols >= 4 ==> viewport.cursorColumn <= totalCols
  {
    hide LineOk, ViewportStart, CursorPosition, LineOf, Wrapped;
    var visibleWidth := VisibleWidth(totalCols);
    var clampedCursor: nat := Min(cursorIndex, |input|);
    var layout := WrapInputLines(width, input, visibleWidth);
    lines := layout;
    PositionOf(width, visibleWidth, input, layout, clampedCursor);
    var (cursorLine, cursorColumnOffset) := CursorPosition(layout, clampedCursor);
    var viewportStart := ViewportStart(|layout|, cursorLine);
    ViewportStartHolds(|layout|, cursorLine);
    var shown: nat := Min(INPUT_VIEWPORT_ROWS, |layout| - viewportStart);
    var visibleLines := seq(shown, i requires 0 <= i < shown => layout[viewportStart + i].text);
    viewport := InputViewport(visibleLines, SatSub(cursorLine, viewportStart), CURSOR_BASE_COLUMN + cursorColumnOffset);
  }
}
