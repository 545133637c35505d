/** Selecting text in the rendered document. Long user messages are wrapped into several
    rendered lines; copying must give back the lines as they were written. */
module Selection {
  import opened Text
  import Wrap = InputWrap
  import StyledCells

  const USER_MESSAGE_MARKER: char := '\U{E000}'

  /** A rendered line: its source cells, which are the characters of its source text, and the
      cells it is drawn with, some of which carry the number of a source cell. */
  datatype RenderedLine = RenderedLine(source: string, wrappedContinuation: bool, cells: seq<StyledCells.Cell>)

  datatype Position = Position(line: nat, unit: nat) {
    predicate AtMost(other: Position) {
      line < other.line || (line == other.line && unit <= other.unit)
    }
  }

  datatype Mode = CharMode | WordMode | LineMode

  datatype SelectionState = SelectionState(anchor: Option<Position>, focus: Option<Position>, mode: Mode)

  function ClampPosition(lines: seq<RenderedLine>, position: Position): Option<Position> {
    if position.line >= |lines| || lines[position.line].source == "" then None
    else Some(Position(position.line, Min(position.unit, SatSub(|lines[position.line].source|, 1))))
  }

  predicate InDocument(lines: seq<RenderedLine>, position: Position) {
    position.line < |lines| && position.unit < |lines[position.line].source|
  }

  /** The ends of the selection in document order. */
  function SelectionBounds(lines: seq<RenderedLine>, selection: SelectionState): (r: Option<(Position, Position)>)
    ensures r.Some? ==> r.value.0.AtMost(r.value.1) && InDocument(lines, r.value.0) && InDocument(lines, r.value.1)
  {
    if selection.anchor.None? || selection.focus.None? then None
    else
      var anchor, focus := ClampPosition(lines, selection.anchor.value), ClampPosition(lines, selection.focus.value);
      if anchor.None? || focus.None? then None
      else if anchor == focus && selection.mode == CharMode then None
      else if anchor.value.AtMost(focus.value) then Some((anchor.value, focus.value))
      else Some((focus.value, anchor.value))
  }

  /** The position is on a line that has source cells. */
  predicate OnCells(lines: seq<RenderedLine>, position: Position) {
    position.line < |lines| && lines[position.line].source != ""
  }

  /** `cut` is `position`, or the last cell of its line when the line is shorter. */
  predicate IsCut(lines: seq<RenderedLine>, position: Position, cut: Position) {
    && cut.line == position.line && InDocument(lines, cut) && cut.unit <= position.unit
    && (cut.unit < position.unit ==> cut.unit + 1 == |lines[cut.line].source|)
  }

  /** Which two positions come out: the cut ends, the smaller one first. There are none exactly
      when an end is unset or on no cell, or when both are the same cell in character mode. */
  lemma BoundsAreCutEnds(lines: seq<RenderedLine>, anchor: Position, focus: Position, mode: Mode, a: Position, f: Position)
    requires IsCut(lines, anchor, a) && IsCut(lines, focus, f)
    ensures var bounds := SelectionBounds(lines, SelectionState(Some(anchor), Some(focus), mode));
            && (bounds.None? <==> a == f && mode == CharMode)
            && (bounds.Some? && a.AtMost(f) ==> bounds.value == (a, f))
            && (bounds.Some? && f.AtMost(a) ==> bounds.value == (f, a))
  {
  }

  /** Every position on a line with cells has exactly one cut, and no other position has one. */
  lemma CutExistsIff(lines: seq<RenderedLine>, position: Position)
    ensures OnCells(lines, position) <==> exists cut :: IsCut(lines, position, cut)
    ensures forall x, y :: IsCut(lines, position, x) && IsCut(lines, position, y) ==> x == y
  {
    if OnCells(lines, position) {
      var last := |lines[position.line].source| - 1;
      assert IsCut(lines, position, Position(position.line, Min(position.unit, last)));
    }
  }

  lemma NoBoundsIff(lines: seq<RenderedLine>, selection: SelectionState)
    ensures SelectionBounds(lines, selection).None?
       <==> || selection.anchor.None? || selection.focus.None?
            || !OnCells(lines, selection.anchor.value) || !OnCells(lines, selection.focus.value)
            || (selection.mode == CharMode
                && exists cut :: IsCut(lines, selection.anchor.value, cut) && IsCut(lines, selection.focus.value, cut))
  {
    if selection.anchor.Some? && selection.focus.Some? {
      var anchor, focus := selection.anchor.value, selection.focus.value;
      CutExistsIff(lines, anchor);
      CutExistsIff(lines, focus);
      if OnCells(lines, anchor) && OnCells(lines, focus) {
        var a :| IsCut(lines, anchor, a);
        var f :| IsCut(lines, focus, f);
        BoundsAreCutEnds(lines, anchor, focus, selection.mode, a, f);
      }
    }
  }

  /** Whether a cell is drawn in inverse video. */
  predicate CellSelected(bounds: Option<(Position, Position)>, line: nat, sourceUnit: Option<nat>) {
    && bounds.Some? && sourceUnit.Some?
    && var (start, end) := bounds.value;
       var unit := sourceUnit.value;
       if line < start.line || line > end.line then false
       else if start.line == end.line then start.unit <= unit <= end.unit
       else if line == start.line then unit >= start.unit
       else if line == end.line then unit <= end.unit
       else true
  }

  function StartUnit(start: Position, i: nat): nat {
    if i == start.line then start.unit else 0
  }

  function EndUnit(lines: seq<RenderedLine>, end: Position, i: nat): nat
    requires i < |lines|
  {
    if i == end.line then end.unit else SatSub(|lines[i].source|, 1)
  }

  predicate Bounded(lines: seq<RenderedLine>, start: Position, end: Position) {
    start.AtMost(end) && InDocument(lines, start) && InDocument(lines, end)
  }

  /** The characters copied from line `i`. */
  function CopiedPart(lines: seq<RenderedLine>, start: Position, end: Position, i: nat): string
    requires Bounded(lines, start, end) && start.line <= i <= end.line
  {
    if lines[i].source == "" then "" else lines[i].source[StartUnit(start, i)..EndUnit(lines, end, i) + 1]
  }

  /** What copying adds for line `i` when `selected` has been collected before it. */
  function LineShare(lines: seq<RenderedLine>, start: Position, end: Position, i: nat, selected: string): string
    requires Bounded(lines, start, end) && start.line <= i <= end.line
  {
    var line := lines[i];
    if line.source == "" then
      if !line.wrappedContinuation && selected != "" then "\n" else ""
    else
      (if i > start.line && !line.wrappedContinuation then "\n" else "")
      + CopiedPart(lines, start, end, i)
  }

  /** The text collected from the lines before line `n`. */
  function Copied(lines: seq<RenderedLine>, start: Position, end: Position, n: nat): string
    requires Bounded(lines, start, end) && start.line <= n <= end.line + 1
  {
    if n == start.line then ""
    else
      var before := Copied(lines, start, end, n - 1);
      before + LineShare(lines, start, end, n - 1, before)
  }

  lemma CopiedStep(lines: seq<RenderedLine>, start: Position, end: Position, i: nat)
    requires Bounded(lines, start, end) && start.line <= i <= end.line
    ensures Copied(lines, start, end, start.line) == ""
    ensures var before := Copied(lines, start, end, i);
            Copied(lines, start, end, i + 1) == before + LineShare(lines, start, end, i, before)
  {
  }

  lemma ShareOf(lines: seq<RenderedLine>, start: Position, end: Position, i: nat, selected: string)
    requires Bounded(lines, start, end) && start.line <= i <= end.line
    ensures i < |lines|
    ensures lines[i].source == "" ==>
              LineShare(lines, start, end, i, selected) == if !lines[i].wrappedContinuation && selected != "" then "\n" else ""
    ensures lines[i].source != "" ==>
              && StartUnit(start, i) <= EndUnit(lines, end, i) < |lines[i].source|
              && LineShare(lines, start, end, i, selected)
              == (if i > start.line && !lines[i].wrappedContinuation then "\n" else "")
                 + lines[i].source[StartUnit(start, i)..EndUnit(lines, end, i) + 1]
  {
  }

  /** What a selection copies. */
  function TextOf(lines: seq<RenderedLine>, selection: SelectionState): Option<string> {
    var bounds := SelectionBounds(lines, selection);
    if bounds.None? then None else Some(Copied(lines, bounds.value.0, bounds.value.1, bounds.value.1.line + 1))
  }

  /** Dragging from right to left is dragging from left to right. */
  lemma DirectionDoesNotMatter(lines: seq<RenderedLine>, selection: SelectionState)
    ensures var reversed := SelectionState(selection.focus, selection.anchor, selection.mode);
            && SelectionBounds(lines, reversed) == SelectionBounds(lines, selection)
            && TextOf(lines, reversed) == TextOf(lines, selection)
  {
    hide Copied;
  }

  method SelectedText(lines: seq<RenderedLine>, selection: SelectionState) returns (text: Option<string>)
    ensures text == TextOf(lines, selection)
  {
    hide Copied, SelectionBounds, LineShare, CopiedPart, InDocument;
    var bounds := SelectionBounds(lines, selection);
    if bounds.None? {
      return None;
    }
    var (start, end) := bounds.value;
    var selected := "";
    CopiedStep(lines, start, end, start.line);
    for i := start.line to end.line + 1
      invariant selected == Copied(lines, start, end, i)
    {
      CopiedStep(lines, start, end, i);
      ShareOf(lines, start, end, i, selected);
      var line := lines[i];
      ghost var was := selected;
      if line.source == "" {
        if !line.wrappedContinuation && selected != "" {
          selected := selected + "\n";
        } else {
          assert was + "" == was;
        }
      } else {
        var startUnit := if i == start.line then start.unit else 0;
        var endUnit := if i == end.line then end.unit else SatSub(|line.source|, 1);
        var selectedLine := line.source[startUnit..endUnit + 1];
        if i > start.line && !line.wrappedContinuation {
          selected := selected + "\n";
        } else {
          assert was + "" == was;
        }
        selected := selected + selectedLine;
        Assoc(was, if i > start.line && !line.wrappedContinuation then "\n" else "", selectedLine);
      }
    }
    return Some(selected);
  }

  // ---- drawing the document

  /** What the terminal adds: character widths, the width of a whole text, and the codes of the
      colours in which a user message is drawn. */
  datatype Look = Look(charWidth: char -> nat, textWidth: string -> nat, background: string, text: string, prefix: string) {
    predicate Valid() {
      IsCodes(background) && IsCodes(text) && IsCodes(prefix)
    }
  }

  predicate IsCodes(codes: string) {
    forall i :: 0 <= i < |codes| ==> codes[i] == ';' || '0' <= codes[i] <= '9'
  }

  function Sgr(codes: string): string {
    [StyledCells.ESC, '['] + codes + "m"
  }

  predicate HasMarker(raw: string) {
    raw != "" && raw[0] == USER_MESSAGE_MARKER
  }

  function Padding(look: Look, message: string, cols: nat): string {
    StyledCells.Spaces(SatSub(cols, look.textWidth(message)))
  }

  /** `render_tui_content_line_with_palette`: a message is drawn in its colours, its prefix `>`
      in another one, and padded to the width of the terminal. */
  function RenderMessage(look: Look, message: string, cols: nat): string {
    var colours := Sgr(look.background + ";" + look.text);
    var end := Padding(look, message, cols) + StyledCells.RESET;
    if "> " <= message then colours + (Sgr(look.prefix) + (">" + (colours + (" " + (message[2..] + end)))))
    else colours + (message + end)
  }

  function RenderContentLine(look: Look, raw: string, cols: nat): string {
    if HasMarker(raw) then RenderMessage(look, raw[1..], cols) else raw
  }

  /** The line drawn for `raw` whose cells are numbered as those of `source`. */
  ghost predicate RenderedAs(look: Look, raw: string, cols: nat, source: string, continuation: bool, line: RenderedLine) {
    && line.source == source && line.wrappedContinuation == continuation
    && StyledCells.GlyphsOf(line.cells) == StyledCells.Scan(RenderContentLine(look, raw, cols), "")
    && forall k :: 0 <= k < |line.cells| ==> StyledCells.CellOk(look.charWidth, line.cells, k, |source|)
  }

  method BuildRenderedLineWithSource(look: Look, raw: string, cols: nat, source: string, continuation: bool) returns (line: RenderedLine)
    ensures RenderedAs(look, raw, cols, source, continuation, line)
  {
    var cells := StyledCells.ParseStyledCells(look.charWidth, RenderContentLine(look, raw, cols), |source|);
    line := RenderedLine(source, continuation, cells);
  }

  // ---- building the document

  /** The line as it was written: without the marker, or without ANSI sequences. */
  function SourceLine(raw: string): string {
    if HasMarker(raw) then raw[1..] else StyledCells.StripAnsi(raw)
  }

  /** A user message line whose text is wrapped: it starts with `> ` or two spaces. */
  predicate IsWrappedMessage(raw: string) {
    |raw| >= 3 && HasMarker(raw) && raw[1..3] in {"> ", "  "}
  }

  /** Line `i` of a wrapped message as it is drawn: every line has a prefix. */
  function MessageRaw(prefix: string, text: string, i: nat): string {
    [USER_MESSAGE_MARKER] + ((if i == 0 then prefix else "  ") + text)
  }

  /** Line `i` of a wrapped message as it is copied: only the first one carries the prefix. */
  function MessageSource(prefix: string, text: string, i: nat): string {
    if i == 0 then prefix + text else text
  }

  ghost predicate MessageLines(look: Look, prefix: string, layout: seq<Wrap.Line>, cols: nat, lines: seq<RenderedLine>) {
    && |lines| == |layout|
    && forall i :: 0 <= i < |lines| ==>
         RenderedAs(look, MessageRaw(prefix, layout[i].text, i), cols, MessageSource(prefix, layout[i].text, i), i > 0, lines[i])
  }

  ghost predicate BuiltFrom(look: Look, raw: string, cols: nat, lines: seq<RenderedLine>) {
    if IsWrappedMessage(raw) then
      exists layout ::
        && Wrap.Wrapped(look.charWidth, Max(SatSub(cols, 2), 1), raw[3..], layout)
        && MessageLines(look, raw[1..3], layout, cols, lines)
    else |lines| == 1 && RenderedAs(look, raw, cols, SourceLine(raw), false, lines[0])
  }

  method BuildRenderedLines(look: Look, raw: string, cols: nat) returns (lines: seq<RenderedLine>)
    ensures BuiltFrom(look, raw, cols, lines)
  {
    hide RenderedAs;
    if !IsWrappedMessage(raw) {
      var source;
      if HasMarker(raw) {
        source := raw[1..];
      } else {
        source := StyledCells.StripAnsiText(raw);
      }
      var line := BuildRenderedLineWithSource(look, raw, cols, source, false);
      return [line];
    }
    var availableCols := Max(SatSub(cols, 2), 1);
    var layout := Wrap.WrapInputLines(look.charWidth, raw[3..], availableCols);
    lines := BuildMessageLines(look, raw[1..3], layout, cols);
  }

  method BuildMessageLines(look: Look, prefix: string, layout: seq<Wrap.Line>, cols: nat) returns (lines: seq<RenderedLine>)
    ensures MessageLines(look, prefix, layout, cols, lines)
  {
    hide RenderedAs, MessageRaw, MessageSource;
    lines := [];
    for i := 0 to |layout|
      invariant MessageLines(look, prefix, layout[..i], cols, lines)
    {
      var line := BuildRenderedLineWithSource(look, MessageRaw(prefix, layout[i].text, i), cols,
                                              MessageSource(prefix, layout[i].text, i), i > 0);
      lines := lines + [line];
    }
    assert layout[..|layout|] == layout;
  }

  lemma PrefixedRaw(prefix: string, text: string)
    requires prefix == "> " || prefix == "  "
    ensures var raw := [USER_MESSAGE_MARKER] + prefix + text; IsWrappedMessage(raw) && raw[1..3] == prefix && raw[3..] == text
  {
    var raw := [USER_MESSAGE_MARKER] + prefix + text;
    assert raw[1..3] == prefix && raw[3..] == text;
  }

  lemma MessageLayout(look: Look, raw: string, cols: nat, lines: seq<RenderedLine>) returns (layout: seq<Wrap.Line>)
    requires |raw| >= 3 && IsWrappedMessage(raw) && BuiltFrom(look, raw, cols, lines)
    ensures Wrap.Wrapped(look.charWidth, Max(SatSub(cols, 2), 1), raw[3..], layout)
    ensures MessageLines(look, raw[1..3], layout, cols, lines)
  {
    hide Wrap.Wrapped, MessageLines, IsWrappedMessage;
    layout :|
      && Wrap.Wrapped(look.charWidth, Max(SatSub(cols, 2), 1), raw[3..], layout)
      && MessageLines(look, raw[1..3], layout, cols, lines);
  }

  lemma LineFits(width: char -> nat, cols: nat, input: string, layout: seq<Wrap.Line>, i: nat)
    requires Wrap.Wrapped(width, cols, input, layout) && i < |layout|
    ensures Wrap.ColumnAt(width, cols, layout[i].text, |layout[i].text|) <= cols
  {
    hide Wrap.ColumnAt, Wrap.HardBreak, Wrap.SoftBreak;
    assert Wrap.LineOk(width, cols, input, layout[i]);
  }

  /** Messages with either prefix are wrapped: no line of one is wider than the terminal, its two
      columns of prefix included. */
  lemma MessageFits(look: Look, prefix: string, text: string, cols: nat, lines: seq<RenderedLine>, i: nat)
    requires prefix == "> " || prefix == "  "
    requires BuiltFrom(look, [USER_MESSAGE_MARKER] + prefix + text, cols, lines) && i < |lines| && cols >= 3
    ensures lines[i].wrappedContinuation == (i > 0)
    ensures exists part :: lines[i].source == (if i == 0 then prefix + part else part)
                           && 2 + Wrap.ColumnAt(look.charWidth, cols - 2, part, |part|) <= cols
  {
    hide RenderedAs, Wrap.ColumnAt, Wrap.Wrapped, IsWrappedMessage, BuiltFrom, MessageRaw;
    PrefixedRaw(prefix, text);
    var layout := MessageLayout(look, [USER_MESSAGE_MARKER] + prefix + text, cols, lines);
    var part := layout[i].text;
    RenderedSource(look, MessageRaw(prefix, part, i), cols, MessageSource(prefix, part, i), i > 0, lines[i]);
    LineFits(look.charWidth, cols - 2, text, layout, i);
  }

  /** All lines of the document, in order. */
  ghost predicate Document(look: Look, raws: seq<string>, cols: nat, lines: seq<RenderedLine>) {
    if raws == [] then lines == []
    else exists n: nat :: n <= |lines| && BuiltFrom(look, raws[0], cols, lines[..n]) && Document(look, raws[1..], cols, lines[n..])
  }

  method BuildRenderedContent(look: Look, raws: seq<string>, cols: nat) returns (lines: seq<RenderedLine>)
    ensures Document(look, raws, cols, lines)
  {
    hide BuiltFrom;
    lines := [];
    var i := |raws|;
    while i > 0
      invariant 0 <= i <= |raws|
      invariant Document(look, raws[i..], cols, lines)
    {
      i := i - 1;
      var built := BuildRenderedLines(look, raws[i], cols);
      assert raws[i..][1..] == raws[i + 1..];
      assert (built + lines)[..|built|] == built && (built + lines)[|built|..] == lines;
      lines := built + lines;
    }
  }

  // ---- what is highlighted and what is copied

  /** The characters drawn in inverse video in a line, in order. */
  function Highlighted(cells: seq<StyledCells.Cell>, start: Position, end: Position, i: nat): string {
    if cells == [] then ""
    else (if CellSelected(Some((start, end)), i, cells[0].sourceUnit) then [cells[0].ch] else "")
         + Highlighted(cells[1..], start, end, i)
  }

  /** Every selection that touches line `i` highlights there what it copies from there. */
  ghost predicate CopiesWhatItHighlights(lines: seq<RenderedLine>, i: nat)
    requires i < |lines|
  {
    forall start, end | Bounded(lines, start, end) && start.line <= i <= end.line ::
      Highlighted(lines[i].cells, start, end, i) == CopiedPart(lines, start, end, i)
  }

  /** The cells of a line are numbered from the first one on, as many as its source has. */
  predicate Numbered(cells: seq<StyledCells.Cell>, count: nat) {
    forall k :: 0 <= k < |cells| ==> cells[k].sourceUnit == if k < count then Some(k) else None
  }

  function Chars(cells: seq<StyledCells.Cell>): (s: string)
    ensures |s| == |cells| && forall k :: 0 <= k < |s| ==> s[k] == cells[k].ch
  {
    seq(|cells|, k requires 0 <= k < |cells| => cells[k].ch)
  }

  lemma UnitSelectedIff(lines: seq<RenderedLine>, start: Position, end: Position, i: nat, unit: nat)
    requires Bounded(lines, start, end) && start.line <= i <= end.line && unit < |lines[i].source|
    ensures CellSelected(Some((start, end)), i, Some(unit)) <==> StartUnit(start, i) <= unit < EndUnit(lines, end, i) + 1
  {
  }

  /** The characters from `k` on whose indices lie between two bounds. */
  function Between(s: string, lo: nat, hi: nat, k: nat): string {
    if Max(lo, k) < Min(hi, |s|) then s[Max(lo, k)..Min(hi, |s|)] else ""
  }

  lemma BetweenStep(s: string, lo: nat, hi: nat, k: nat)
    requires k < |s|
    ensures Between(s, lo, hi, k) == (if lo <= k < hi then [s[k]] else "") + Between(s, lo, hi, k + 1)
  {
  }

  lemma HighlightedStep(cells: seq<StyledCells.Cell>, start: Position, end: Position, i: nat, k: nat)
    requires k < |cells|
    ensures Highlighted(cells[k..], start, end, i)
         == (if CellSelected(Some((start, end)), i, cells[k].sourceUnit) then [cells[k].ch] else "")
            + Highlighted(cells[k + 1..], start, end, i)
  {
    hide CellSelected;
    assert cells[k..][1..] == cells[k + 1..];
  }

  /** The highlighted characters are those of the cells between the two units. */
  lemma {:induction false} HighlightedFrom(lines: seq<RenderedLine>, start: Position, end: Position, i: nat, k: nat)
    requires Bounded(lines, start, end) && start.line <= i <= end.line && i < |lines|
    requires Numbered(lines[i].cells, |lines[i].source|) && k <= |lines[i].cells|
    ensures Highlighted(lines[i].cells[k..], start, end, i)
         == Between(Chars(lines[i].cells), StartUnit(start, i), SelectedEnd(lines, end, i), k)
    decreases |lines[i].cells| - k
  {
    hide CellSelected, Bounded, Between, Highlighted, Chars, StartUnit, EndUnit;
    var cells := lines[i].cells;
    if k < |cells| {
      HighlightedFrom(lines, start, end, i, k + 1);
      HighlightedStep(cells, start, end, i, k);
      BetweenStep(Chars(cells), StartUnit(start, i), SelectedEnd(lines, end, i), k);
      if k < |lines[i].source| {
        UnitSelectedIff(lines, start, end, i, k);
      } else {
        NoUnitNotSelected(start, end, i);
        EndInSource(lines, start, end, i);
      }
    } else {
      assert cells[k..] == [];
      NothingHighlighted(lines, start, end, i);
    }
  }

  lemma NothingHighlighted(lines: seq<RenderedLine>, start: Position, end: Position, i: nat)
    requires i < |lines|
    ensures Highlighted([], start, end, i) == ""
    ensures Between(Chars(lines[i].cells), StartUnit(start, i), SelectedEnd(lines, end, i), |lines[i].cells|) == ""
  {
  }

  /** Where the selected units of a line end. */
  function SelectedEnd(lines: seq<RenderedLine>, end: Position, i: nat): nat
    requires i < |lines|
  {
    if lines[i].source == "" then 0 else EndUnit(lines, end, i) + 1
  }

  lemma EndInSource(lines: seq<RenderedLine>, start: Position, end: Position, i: nat)
    requires Bounded(lines, start, end) && start.line <= i <= end.line
    ensures SelectedEnd(lines, end, i) <= |lines[i].source|
  {
  }

  lemma NoUnitNotSelected(start: Position, end: Position, i: nat)
    ensures !CellSelected(Some((start, end)), i, None)
  {
  }

  lemma OneUnit(lines: seq<RenderedLine>, i: nat, unit: nat)
    requires i < |lines| && unit < |lines[i].source|
    ensures Bounded(lines, Position(i, unit), Position(i, unit))
    ensures CopiedPart(lines, Position(i, unit), Position(i, unit), i) == [lines[i].source[unit]]
  {
  }

  lemma UnitIsShown(lines: seq<RenderedLine>, i: nat, unit: nat)
    requires i < |lines| && Numbered(lines[i].cells, |lines[i].source|) && unit < |lines[i].source|
    requires CopiesWhatItHighlights(lines, i)
    ensures unit < |lines[i].cells| && lines[i].cells[unit].ch == lines[i].source[unit]
  {
    hide Highlighted, Bounded, CopiedPart;
    assert lines[i].cells[0..] == lines[i].cells;
    OneUnit(lines, i, unit);
    HighlightedFrom(lines, Position(i, unit), Position(i, unit), i, 0);
  }

  lemma {:induction false} ShownUpTo(lines: seq<RenderedLine>, i: nat, k: nat)
    requires i < |lines| && Numbered(lines[i].cells, |lines[i].source|) && k <= |lines[i].source|
    requires CopiesWhatItHighlights(lines, i)
    ensures k <= |lines[i].cells| && lines[i].source[..k] == Chars(lines[i].cells)[..k]
  {
    if k > 0 {
      hide CopiesWhatItHighlights;
      ShownUpTo(lines, i, k - 1);
      UnitIsShown(lines, i, k - 1);
    }
  }

  /** Highlighting and copying agree for every selection exactly when the source text stands at
      the front of what is drawn. */
  lemma CopiesWhatItHighlightsIff(lines: seq<RenderedLine>, i: nat)
    requires i < |lines| && Numbered(lines[i].cells, |lines[i].source|)
    ensures CopiesWhatItHighlights(lines, i) <==> lines[i].source <= Chars(lines[i].cells)
  {
    hide Highlighted, Bounded, CopiedPart;
    var line := lines[i];
    var shown := Chars(line.cells);
    assert line.cells[0..] == line.cells;
    if line.source <= shown {
      forall start, end | Bounded(lines, start, end) && start.line <= i <= end.line
        ensures Highlighted(line.cells, start, end, i) == CopiedPart(lines, start, end, i)
      {
        HighlightedFrom(lines, start, end, i, 0);
        CopiedIsShown(lines, start, end, i, shown);
      }
    }
    if CopiesWhatItHighlights(lines, i) {
      ShownUpTo(lines, i, |line.source|);
    }
  }

  lemma CopiedIsShown(lines: seq<RenderedLine>, start: Position, end: Position, i: nat, shown: string)
    requires Bounded(lines, start, end) && start.line <= i <= end.line && lines[i].source <= shown
    ensures CopiedPart(lines, start, end, i) == Between(shown, StartUnit(start, i), SelectedEnd(lines, end, i), 0)
  {
  }

  lemma SgrIsCsi(codes: string)
    requires IsCodes(codes)
    ensures StyledCells.IsCsi(Sgr(codes))
  {
  }

  /** The colours of a message show nothing. */
  lemma StripMessage(look: Look, message: string, cols: nat)
    requires look.Valid()
    ensures StyledCells.StripAnsi(RenderMessage(look, message, cols))
         == StyledCells.StripAnsi(message + (Padding(look, message, cols) + StyledCells.RESET))
  {
    hide StyledCells.StripAnsi, Sgr, Padding, StyledCells.IsCsi;
    var colours := Sgr(look.background + ";" + look.text);
    var end := Padding(look, message, cols) + StyledCells.RESET;
    SgrIsCsi(look.background + ";" + look.text);
    SgrIsCsi(look.prefix);
    if "> " <= message {
      var rest := message[2..] + end;
      StyledCells.StripCsi(colours, Sgr(look.prefix) + (">" + (colours + (" " + rest))));
      StyledCells.StripCsi(Sgr(look.prefix), ">" + (colours + (" " + rest)));
      StyledCells.StripPlain('>', colours + (" " + rest));
      StyledCells.StripCsi(colours, " " + rest);
      StyledCells.StripPlain('>', " " + rest);
      assert message + end == ">" + (" " + rest);
    } else {
      StyledCells.StripCsi(colours, message + end);
    }
  }

  /** A message without control sequences is drawn as itself, filled up with spaces to the width
      of the terminal and not cut when it is wider. */
  lemma MessageIsPadded(look: Look, message: string, cols: nat)
    requires look.Valid() && !StyledCells.HasCsi(message)
    ensures StyledCells.StripAnsi(RenderContentLine(look, [USER_MESSAGE_MARKER] + message, cols))
         == message + StyledCells.Spaces(if look.textWidth(message) < cols then cols - look.textWidth(message) else 0)
  {
    hide StyledCells.StripAnsi, StyledCells.Spaces, StyledCells.HasCsi;
    assert ([USER_MESSAGE_MARKER] + message)[1..] == message;
    StripMessage(look, message, cols);
    StyledCells.StripPadded(message, SatSub(cols, look.textWidth(message)));
  }

  /** The characters of a rendered line are those that its drawn text shows. */
  lemma ShownChars(look: Look, raw: string, cols: nat, source: string, continuation: bool, line: RenderedLine)
    requires RenderedAs(look, raw, cols, source, continuation, line)
    ensures Chars(line.cells) == StyledCells.StripAnsi(RenderContentLine(look, raw, cols))
    ensures Numbered(line.cells, |source|)
  {
    hide StyledCells.StripAnsi, StyledCells.Scan;
    StyledCells.ScanSeesStripped(RenderContentLine(look, raw, cols), "");
    forall k | 0 <= k < |line.cells| ensures line.cells[k].sourceUnit == if k < |source| then Some(k) else None {
      assert StyledCells.CellOk(look.charWidth, line.cells, k, |source|);
    }
    assert Chars(line.cells) == StyledCells.CharsOf(StyledCells.GlyphsOf(line.cells));
  }

  /** When the source text of a line stands at the front of what is drawn for it. A line that
      is no message does; a message line or the first line of a wrapped one does when it holds
      no control sequence; a continuation is drawn behind two spaces that are not part of its
      source, so only blank text stands in its own place. */
  predicate StandsInPlace(raw: string, line: RenderedLine) {
    || !HasMarker(raw)
    || if line.wrappedContinuation then StyledCells.AllSpaces(line.source) else !StyledCells.HasCsi(line.source)
  }

  lemma MessageStandsIff(look: Look, message: string, cols: nat, source: string, continuation: bool, line: RenderedLine)
    requires look.Valid() && RenderedAs(look, [USER_MESSAGE_MARKER] + message, cols, source, continuation, line)
    requires message == if continuation then "  " + source else source
    ensures source <= Chars(line.cells)
       <==> if continuation then StyledCells.AllSpaces(source) else !StyledCells.HasCsi(source)
    ensures continuation && !StyledCells.HasCsi(source) ==> "  " + source <= Chars(line.cells)
  {
    hide StyledCells.StripAnsi, StyledCells.HasCsi, StyledCells.AllSpaces, StyledCells.Spaces, RenderMessage;
    var raw := [USER_MESSAGE_MARKER] + message;
    assert raw[1..] == message;
    ShownChars(look, raw, cols, source, continuation, line);
    StripMessage(look, message, cols);
    var n := SatSub(cols, look.textWidth(message));
    if continuation {
      StyledCells.ShownBehindIndentIff(source, n);
      Assoc("  ", source, StyledCells.Spaces(n) + StyledCells.RESET);
      Assoc("  ", source, StyledCells.Spaces(n));
    } else {
      StyledCells.ShownInFrontIff(source, n);
    }
  }

  /** A line of a message is drawn as its source, a continuation with two spaces in front. */
  lemma MessageOf(look: Look, raw: string, cols: nat, built: seq<RenderedLine>, j: nat)
    requires BuiltFrom(look, raw, cols, built) && j < |built| && HasMarker(raw)
    ensures var line := built[j];
            var message := if line.wrappedContinuation then "  " + line.source else line.source;
            RenderedAs(look, [USER_MESSAGE_MARKER] + message, cols, line.source, line.wrappedContinuation, line)
  {
    hide Wrap.Wrapped, RenderContentLine, StyledCells.CellOk, StyledCells.GlyphsOf, StyledCells.Scan;
    if IsWrappedMessage(raw) {
      var layout: seq<Wrap.Line> :|
        && Wrap.Wrapped(look.charWidth, Max(SatSub(cols, 2), 1), raw[3..], layout)
        && MessageLines(look, raw[1..3], layout, cols, built);
    } else {
      assert [USER_MESSAGE_MARKER] + raw[1..] == raw;
    }
  }

  /** For every line of a built document: every selection highlights exactly the characters that
      it copies if and only if the source stands in place. */
  lemma HighlightIsCopyIff(look: Look, raw: string, cols: nat, built: seq<RenderedLine>, j: nat, lines: seq<RenderedLine>, i: nat)
    requires look.Valid() && BuiltFrom(look, raw, cols, built) && j < |built|
    requires i < |lines| && lines[i] == built[j]
    ensures CopiesWhatItHighlights(lines, i) <==> StandsInPlace(raw, lines[i])
  {
    hide CopiesWhatItHighlights, StyledCells.StripAnsi, StyledCells.HasCsi, StyledCells.AllSpaces, Chars, RenderedAs, Numbered;
    var line := lines[i];
    if HasMarker(raw) {
      var message := if line.wrappedContinuation then "  " + line.source else line.source;
      MessageOf(look, raw, cols, built, j);
      ShownChars(look, [USER_MESSAGE_MARKER] + message, cols, line.source, line.wrappedContinuation, line);
      MessageStandsIff(look, message, cols, line.source, line.wrappedContinuation, line);
    } else {
      PlainLine(look, raw, cols, built);
    }
    CopiesWhatItHighlightsIff(lines, i);
  }

  lemma PlainLine(look: Look, raw: string, cols: nat, built: seq<RenderedLine>)
    requires BuiltFrom(look, raw, cols, built) && !HasMarker(raw)
    ensures |built| == 1 && Numbered(built[0].cells, |built[0].source|) && Chars(built[0].cells) == built[0].source
  {
    hide StyledCells.StripAnsi, StyledCells.Scan;
    ShownChars(look, raw, cols, SourceLine(raw), false, built[0]);
  }

  /** On a continuation line without control sequences a unit is drawn as the character two
      places before the one that it copies, and the first two units as spaces. */
  lemma ContinuationIsShifted(look: Look, raw: string, cols: nat, built: seq<RenderedLine>, j: nat, unit: nat)
    requires look.Valid() && BuiltFrom(look, raw, cols, built) && j < |built| && built[j].wrappedContinuation
    requires !StyledCells.HasCsi(built[j].source) && unit < |built[j].source|
    ensures var line := built[j];
            && unit < |line.cells| && line.cells[unit].sourceUnit == Some(unit)
            && line.cells[unit].ch == if unit < 2 then ' ' else line.source[unit - 2]
  {
    hide StyledCells.HasCsi, StyledCells.AllSpaces, StyledCells.StripAnsi, RenderedAs, BuiltFrom, Chars;
    var line := built[j];
    var message := "  " + line.source;
    ContinuationHasMarker(look, raw, cols, built, j);
    MessageOf(look, raw, cols, built, j);
    ShownChars(look, [USER_MESSAGE_MARKER] + message, cols, line.source, true, line);
    MessageStandsIff(look, message, cols, line.source, true, line);
    NumberedPrefix(line.cells, |line.source|, message, unit);
  }

  lemma NumberedPrefix(cells: seq<StyledCells.Cell>, count: nat, front: string, unit: nat)
    requires Numbered(cells, count) && front <= Chars(cells) && unit < count && unit < |front|
    ensures unit < |cells| && cells[unit].sourceUnit == Some(unit) && cells[unit].ch == front[unit]
  {
    assert Chars(cells)[unit] == front[unit];
  }

  lemma ContinuationHasMarker(look: Look, raw: string, cols: nat, built: seq<RenderedLine>, j: nat)
    requires BuiltFrom(look, raw, cols, built) && j < |built| && built[j].wrappedContinuation
    ensures HasMarker(raw)
  {
  }

  /** In a width of five the message `> abcdef` is drawn as `> abc` and `  def`; unit two of the
      second line copies `f` and is drawn as `d`. */
  lemma ShiftedMessage(look: Look, lines: seq<RenderedLine>)
    requires look.Valid() && Wrap.UnitWidths(look.charWidth, "abcdef")
    requires BuiltFrom(look, [USER_MESSAGE_MARKER] + "> abcdef", 5, lines)
    ensures |lines| == 2 && lines[1].source == "def" && |lines[1].cells| > 2
    ensures lines[1].cells[2].sourceUnit == Some(2) && lines[1].cells[2].ch == 'd'
    ensures lines[1].source[2] == 'f' && !CopiesWhatItHighlights(lines, 1)
  {
    hide Wrap.Wrapped, RenderedAs, CopiesWhatItHighlights;
    var raw := [USER_MESSAGE_MARKER] + "> abcdef";
    assert raw[3..] == "abcdef" && "abcdef"[3..6] == "def" && raw[1..3] == "> ";
    var layout: seq<Wrap.Line> :|
      && Wrap.Wrapped(look.charWidth, Max(SatSub(5, 2), 1), raw[3..], layout)
      && MessageLines(look, raw[1..3], layout, 5, lines);
    Wrap.TwoUnitLines(look.charWidth, 3, "abcdef", layout);
    RenderedSource(look, MessageRaw(raw[1..3], "def", 1), 5, "def", true, lines[1]);
    assert "def"[1..] == "ef" && "ef"[1..] == "f" && "f"[1..] == "";
    ContinuationIsShifted(look, raw, 5, lines, 1, 2);
    HighlightIsCopyIff(look, raw, 5, lines, 1, lines, 1);
  }

  lemma RenderedSource(look: Look, raw: string, cols: nat, source: string, continuation: bool, line: RenderedLine)
    requires RenderedAs(look, raw, cols, source, continuation, line)
    ensures line.source == source && line.wrappedContinuation == continuation
  {
  }

  // ---- select all

  /** Every line, with a newline in front of each line that is not a continuation. */
  function Glued(lines: seq<RenderedLine>): string {
    if lines == [] then ""
    else (if lines[0].wrappedContinuation then "" else "\n") + lines[0].source + Glued(lines[1..])
  }

  /** Every string with a newline in front. */
  function Lined(texts: seq<string>): string {
    if texts == [] then "" else "\n" + texts[0] + Lined(texts[1..])
  }

  function JoinedByNewlines(texts: seq<string>): string
    requires texts != []
  {
    texts[0] + Lined(texts[1..])
  }

  lemma {:induction false} GluedAppend(a: seq<RenderedLine>, b: seq<RenderedLine>)
    ensures Glued(a + b) == Glued(a) + Glued(b)
  {
    if a == [] {
      assert a + b == b;
    } else {
      assert (a + b)[1..] == a[1..] + b;
      GluedAppend(a[1..], b);
    }
  }

  /** What gluing needs to know of the lines of a wrapped message. */
  predicate MessageSources(prefix: string, layout: seq<Wrap.Line>, lines: seq<RenderedLine>) {
    && |lines| == |layout|
    && forall i :: 0 <= i < |lines| ==>
         lines[i].source == MessageSource(prefix, layout[i].text, i) && lines[i].wrappedContinuation == (i > 0)
  }

  lemma {:induction false} GluedTail(layout: seq<Wrap.Line>, prefix: string, lines: seq<RenderedLine>, i: nat)
    requires 0 < i <= |layout| && MessageSources(prefix, layout, lines)
    requires forall j :: 0 < j < |layout| ==> layout[j].startChar == layout[j - 1].endChar
    ensures i < |layout| ==> Glued(lines[i..]) == Wrap.Rejoined(layout[i..])
    ensures i == |layout| ==> Glued(lines[i..]) == ""
    decreases |layout| - i
  {
    if i < |layout| {
      GluedTail(layout, prefix, lines, i + 1);
      assert lines[i..][1..] == lines[i + 1..];
      assert layout[i..][1..] == layout[i + 1..];
    }
  }

  lemma NoHardBreaks(width: char -> nat, cols: nat, input: string, layout: seq<Wrap.Line>)
    requires Wrap.Wrapped(width, cols, input, layout) && '\n' !in input
    ensures forall j :: 0 < j < |layout| ==> layout[j].startChar == layout[j - 1].endChar
    ensures forall j :: 0 < j < |layout| ==> layout[j].text != ""
  {
    hide Wrap.ColumnAt, Wrap.DisplayWidth;
    forall j | 0 < j < |layout| ensures layout[j].startChar == layout[j - 1].endChar && layout[j].text != "" {
      Wrap.BreakBeforeEnd(width, cols, input, layout, j - 1);
      assert input[layout[j - 1].endChar] in input;
      assert Wrap.LineOk(width, cols, input, layout[j]);
      if j + 1 < |layout| {
        Wrap.BreakBeforeEnd(width, cols, input, layout, j);
        assert input[layout[j].endChar] in input;
      }
    }
  }

  lemma MessageGlues(width: char -> nat, cols: nat, prefix: string, input: string, layout: seq<Wrap.Line>, lines: seq<RenderedLine>)
    requires Wrap.Wrapped(width, cols, input, layout) && '\n' !in input && prefix != "" && MessageSources(prefix, layout, lines)
    ensures && Glued(lines) == "\n" + (prefix + input)
            && lines != [] && !lines[0].wrappedContinuation
            && lines[0].source != "" && lines[|lines| - 1].source != ""
  {
    hide Wrap.LineOk, Wrap.HardBreak, Wrap.SoftBreak;
    NoHardBreaks(width, cols, input, layout);
    Wrap.WrapIsLossless(width, cols, input, layout);
    GluedTail(layout, prefix, lines, 1);
    var first := layout[0].text;
    assert Glued(lines) == "\n" + (prefix + first) + Glued(lines[1..]);
    if |layout| == 1 {
      assert input == first;
    } else {
      assert layout[1].startChar == layout[0].endChar;
      assert input == first + "" + Wrap.Rejoined(layout[1..]);
      assert first + "" == first;
    }
    assert input == first + Glued(lines[1..]);
    Assoc(prefix, first, Glued(lines[1..]));
    Assoc("\n", prefix + first, Glued(lines[1..]));
  }

  lemma GluedOne(line: RenderedLine)
    ensures Glued([line]) == (if line.wrappedContinuation then "" else "\n") + line.source
  {
    assert [line][1..] == [];
  }

  lemma MessageSourceLine(raw: string)
    requires IsWrappedMessage(raw)
    ensures SourceLine(raw) == raw[1..3] + raw[3..]
  {
  }

  lemma SourcesOf(look: Look, prefix: string, layout: seq<Wrap.Line>, cols: nat, lines: seq<RenderedLine>)
    requires MessageLines(look, prefix, layout, cols, lines)
    ensures MessageSources(prefix, layout, lines)
  {
  }

  lemma PlainLineGlues(line: RenderedLine, source: string)
    requires line.source == source && !line.wrappedContinuation
    ensures Glued([line]) == "\n" + source
  {
    hide Glued;
    GluedOne(line);
  }

  lemma PlainBuilt(look: Look, raw: string, cols: nat, lines: seq<RenderedLine>)
    requires BuiltFrom(look, raw, cols, lines) && !IsWrappedMessage(raw)
    ensures |lines| == 1 && lines == [lines[0]] && lines[0].source == SourceLine(raw) && !lines[0].wrappedContinuation
  {
  }

  /** The rendered lines of one document line glue back to it. */
  lemma BuiltGlues(look: Look, raw: string, cols: nat, lines: seq<RenderedLine>)
    requires BuiltFrom(look, raw, cols, lines) && '\n' !in raw
    ensures lines != [] && !lines[0].wrappedContinuation
    ensures Glued(lines) == "\n" + SourceLine(raw)
    ensures SourceLine(raw) != "" ==> lines[0].source != "" && lines[|lines| - 1].source != ""
  {
    hide Wrap.Wrapped, MessageLines, MessageSources, Glued, SourceLine, BuiltFrom;
    if IsWrappedMessage(raw) {
      var layout := MessageLayout(look, raw, cols, lines);
      SourcesOf(look, raw[1..3], layout, cols, lines);
      MessageGlues(look.charWidth, Max(SatSub(cols, 2), 1), raw[1..3], raw[3..], layout, lines);
      MessageSourceLine(raw);
    } else {
      PlainBuilt(look, raw, cols, lines);
      PlainLineGlues(lines[0], SourceLine(raw));
    }
  }

  function SourceLines(raws: seq<string>): (r: seq<string>)
    ensures |r| == |raws| && forall i :: 0 <= i < |raws| ==> r[i] == SourceLine(raws[i])
  {
    seq(|raws|, i requires 0 <= i < |raws| => SourceLine(raws[i]))
  }

  /** Where the document's first line ends and how the rest continues. */
  lemma DocumentCut(look: Look, raws: seq<string>, cols: nat, lines: seq<RenderedLine>) returns (n: nat)
    requires raws != [] && Document(look, raws, cols, lines) && '\n' !in raws[0]
    ensures 0 < n <= |lines| && Document(look, raws[1..], cols, lines[n..])
    ensures !lines[0].wrappedContinuation
    ensures Glued(lines) == "\n" + SourceLine(raws[0]) + Glued(lines[n..])
    ensures SourceLine(raws[0]) != "" ==> lines[0].source != "" && lines[n - 1].source != ""
  {
    hide BuiltFrom, SourceLine, Glued;
    n :| n <= |lines| && BuiltFrom(look, raws[0], cols, lines[..n]) && Document(look, raws[1..], cols, lines[n..]);
    BuiltGlues(look, raws[0], cols, lines[..n]);
    GluedAppend(lines[..n], lines[n..]);
    assert lines == lines[..n] + lines[n..];
  }

  lemma {:induction false} DocumentGlues(look: Look, raws: seq<string>, cols: nat, lines: seq<RenderedLine>)
    requires Document(look, raws, cols, lines) && forall i :: 0 <= i < |raws| ==> '\n' !in raws[i]
    ensures Glued(lines) == Lined(SourceLines(raws))
    ensures raws != [] ==> lines != [] && !lines[0].wrappedContinuation
    ensures raws != [] && SourceLine(raws[0]) != "" ==> lines[0].source != ""
    decreases |raws|
  {
    if raws != [] {
      hide SourceLine, Document;
      var n := DocumentCut(look, raws, cols, lines);
      DocumentGlues(look, raws[1..], cols, lines[n..]);
      assert SourceLines(raws)[1..] == SourceLines(raws[1..]);
    }
  }

  lemma {:induction false} DocumentEnd(look: Look, raws: seq<string>, cols: nat, lines: seq<RenderedLine>)
    requires Document(look, raws, cols, lines) && forall i :: 0 <= i < |raws| ==> '\n' !in raws[i]
    requires raws != [] && SourceLine(raws[|raws| - 1]) != ""
    ensures lines != [] && lines[|lines| - 1].source != ""
    decreases |raws|
  {
    hide SourceLine, BuiltFrom;
    var n := DocumentCut(look, raws, cols, lines);
    if |raws| == 1 {
      assert lines[n..] == [];
    } else {
      DocumentEnd(look, raws[1..], cols, lines[n..]);
    }
  }

  // ---- every selection copies a part of the written text

  /** Where a cell stands in the glued text. */
  function Offset(lines: seq<RenderedLine>, p: Position): nat
    requires p.line < |lines|
  {
    |Glued(lines[..p.line])| + (if lines[p.line].wrappedContinuation then 0 else 1) + p.unit
  }

  lemma GluedSnoc(lines: seq<RenderedLine>, n: nat)
    requires n < |lines|
    ensures Glued(lines[..n + 1]) == Glued(lines[..n]) + ((if lines[n].wrappedContinuation then "" else "\n") + lines[n].source)
  {
    hide Glued;
    assert lines[..n + 1] == lines[..n] + [lines[n]];
    GluedAppend(lines[..n], [lines[n]]);
    GluedOne(lines[n]);
  }

  lemma GluedPrefix(lines: seq<RenderedLine>, n: nat)
    requires n <= |lines|
    ensures Glued(lines[..n]) <= Glued(lines)
  {
    hide Glued;
    GluedAppend(lines[..n], lines[n..]);
    assert lines[..n] + lines[n..] == lines;
  }

  /** Cells in document order stand in the text in that order. */
  lemma OffsetOfCell(lines: seq<RenderedLine>, p: Position)
    requires InDocument(lines, p)
    ensures Offset(lines, p) < |Glued(lines[..p.line + 1])| <= |Glued(lines)|
    ensures Glued(lines)[Offset(lines, p)] == lines[p.line].source[p.unit]
  {
    hide Glued;
    GluedSnoc(lines, p.line);
    GluedPrefix(lines, p.line + 1);
    assert Glued(lines[..p.line + 1])[Offset(lines, p)] == lines[p.line].source[p.unit];
  }

  lemma ShareInside(lines: seq<RenderedLine>, start: Position, end: Position, i: nat, before: string)
    requires Bounded(lines, start, end) && start.line < i <= end.line && before != ""
    ensures var text := (if lines[i].wrappedContinuation then "" else "\n") + lines[i].source;
            var sep := if lines[i].wrappedContinuation then 0 else 1;
            LineShare(lines, start, end, i, before) == if i < end.line then text else text[..sep + end.unit + 1]
  {
    var source := lines[i].source;
    assert source[0..|source|] == source;
  }

  lemma ShareOfFirst(lines: seq<RenderedLine>, start: Position, end: Position)
    requires Bounded(lines, start, end)
    ensures LineShare(lines, start, end, start.line, "")
         == lines[start.line].source[start.unit..if start.line == end.line then end.unit + 1 else |lines[start.line].source|]
  {
  }

  lemma SliceOfLast(g: string, sep: string, s: string, u: nat, v: nat)
    requires u <= v <= |s|
    ensures (g + (sep + s))[|g| + |sep| + u..|g| + |sep| + v] == s[u..v]
  {
  }

  lemma SliceOfSum(g: string, x: string, o: nat, k: nat)
    requires o <= |g| && k <= |x|
    ensures (g + x)[o..|g| + k] == g[o..] + x[..k]
  {
  }

  /** Where the copied text ends when the lines before `n` have been collected. */
  function Stop(lines: seq<RenderedLine>, end: Position, n: nat): nat
    requires n <= end.line + 1 && end.line < |lines|
  {
    if n <= end.line then |Glued(lines[..n])| else Offset(lines, end) + 1
  }

  lemma OffsetIs(lines: seq<RenderedLine>, p: Position, sep: string)
    requires p.line < |lines| && sep == if lines[p.line].wrappedContinuation then "" else "\n"
    ensures Offset(lines, p) == |Glued(lines[..p.line])| + |sep| + p.unit
  {
  }

  lemma FirstShare(lines: seq<RenderedLine>, start: Position, end: Position, v: nat)
    requires Bounded(lines, start, end)
    requires v == if start.line == end.line then end.unit + 1 else |lines[start.line].source|
    ensures start.unit < v <= |lines[start.line].source|
    ensures Copied(lines, start, end, start.line + 1) == lines[start.line].source[start.unit..v]
  {
    hide LineShare, Copied;
    CopiedStep(lines, start, end, start.line);
    ShareOfFirst(lines, start, end);
    assert "" + LineShare(lines, start, end, start.line, "") == LineShare(lines, start, end, start.line, "");
  }

  lemma SliceAt(all: string, g: string, sep: string, s: string, u: nat, v: nat, o: nat, stop: nat)
    requires u < v <= |s| && all == g + (sep + s) && o == |g| + |sep| + u && stop == |g| + |sep| + v
    ensures o < stop <= |all| && s[u..v] == all[o..stop]
  {
    SliceOfLast(g, sep, s, u, v);
  }

  lemma CollectedFirst(lines: seq<RenderedLine>, start: Position, end: Position)
    requires Bounded(lines, start, end)
    ensures var stop := Stop(lines, end, start.line + 1);
            && Offset(lines, start) < stop <= |Glued(lines[..start.line + 1])|
            && Copied(lines, start, end, start.line + 1) == Glued(lines[..start.line + 1])[Offset(lines, start)..stop]
  {
    hide Glued, Copied, Offset, Stop, StartUnit, EndUnit;
    var line := lines[start.line];
    var sep := if line.wrappedContinuation then "" else "\n";
    var v := if start.line == end.line then end.unit + 1 else |line.source|;
    FirstShare(lines, start, end, v);
    GluedSnoc(lines, start.line);
    OffsetIs(lines, start, sep);
    StopIs(lines, start.line, end, sep, v);
    SliceAt(Glued(lines[..start.line + 1]), Glued(lines[..start.line]), sep, line.source, start.unit, v,
            Offset(lines, start), Stop(lines, end, start.line + 1));
  }

  lemma StopIs(lines: seq<RenderedLine>, i: nat, end: Position, sep: string, v: nat)
    requires i <= end.line < |lines| && sep == if lines[i].wrappedContinuation then "" else "\n"
    requires v == if i == end.line then end.unit + 1 else |lines[i].source|
    ensures Stop(lines, end, i + 1) == |Glued(lines[..i])| + |sep| + v
  {
    hide Glued;
    GluedSnoc(lines, i);
  }

  lemma CollectedStep(lines: seq<RenderedLine>, start: Position, end: Position, n: nat)
    requires Bounded(lines, start, end) && start.line < n <= end.line
    requires Offset(lines, start) < |Glued(lines[..n])|
    requires Copied(lines, start, end, n) == Glued(lines[..n])[Offset(lines, start)..]
    ensures var stop := Stop(lines, end, n + 1);
            && Offset(lines, start) < stop <= |Glued(lines[..n + 1])|
            && Copied(lines, start, end, n + 1) == Glued(lines[..n + 1])[Offset(lines, start)..stop]
  {
    hide Glued, LineShare, Copied;
    var line := lines[n];
    var text := (if line.wrappedContinuation then "" else "\n") + line.source;
    var before := Copied(lines, start, end, n);
    GluedSnoc(lines, n);
    CopiedStep(lines, start, end, n);
    ShareInside(lines, start, end, n, before);
    var k := if n < end.line then |text| else (if line.wrappedContinuation then 0 else 1) + end.unit + 1;
    SliceOfSum(Glued(lines[..n]), text, Offset(lines, start), k);
    assert text[..|text|] == text;
  }

  /** What is collected before line `n` is the text up to that line, or up to the last cell. */
  lemma {:induction false} CollectedIsPart(lines: seq<RenderedLine>, start: Position, end: Position, n: nat)
    requires Bounded(lines, start, end) && start.line < n <= end.line + 1
    ensures var stop := Stop(lines, end, n);
            && Offset(lines, start) < stop <= |Glued(lines[..n])|
            && Copied(lines, start, end, n) == Glued(lines[..n])[Offset(lines, start)..stop]
  {
    hide Glued, Copied, Offset;
    if n == start.line + 1 {
      CollectedFirst(lines, start, end);
    } else {
      CollectedIsPart(lines, start, end, n - 1);
      CollectedStep(lines, start, end, n - 1);
    }
  }

  /** Every selection copies exactly the part of the text between its two cells. */
  lemma CopiedIsPartOfText(lines: seq<RenderedLine>, start: Position, end: Position)
    requires Bounded(lines, start, end)
    ensures Offset(lines, start) <= Offset(lines, end) < |Glued(lines)|
    ensures Copied(lines, start, end, end.line + 1) == Glued(lines)[Offset(lines, start)..Offset(lines, end) + 1]
  {
    hide Glued, Copied;
    CollectedIsPart(lines, start, end, end.line + 1);
    GluedPrefix(lines, end.line + 1);
    OffsetOfCell(lines, end);
  }

  /** In a document of wrapped and plain lines that text is the lines as they were written, each
      behind a newline. */
  lemma SelectionCopiesWrittenText(look: Look, raws: seq<string>, cols: nat, lines: seq<RenderedLine>, start: Position, end: Position)
    requires Document(look, raws, cols, lines) && Bounded(lines, start, end)
    requires forall i :: 0 <= i < |raws| ==> '\n' !in raws[i]
    ensures Offset(lines, start) <= Offset(lines, end) < |Lined(SourceLines(raws))|
    ensures Copied(lines, start, end, end.line + 1) == Lined(SourceLines(raws))[Offset(lines, start)..Offset(lines, end) + 1]
  {
    hide Glued, Copied, Document;
    DocumentGlues(look, raws, cols, lines);
    CopiedIsPartOfText(lines, start, end);
  }

  /** Collecting everything from the first cell on is gluing without the first newline. */
  lemma {:induction false} CopiedAllIsGlued(lines: seq<RenderedLine>, start: Position, end: Position, n: nat)
    requires lines != [] && lines[0].source != "" && lines[|lines| - 1].source != ""
    requires start == Position(0, 0) && end == Position(|lines| - 1, |lines[|lines| - 1].source| - 1)
    requires !lines[0].wrappedContinuation
    requires 1 <= n <= |lines|
    ensures "\n" + Copied(lines, start, end, n) == Glued(lines[..n])
    ensures Copied(lines, start, end, n) != ""
  {
    hide Glued, LineShare;
    var line := lines[n - 1];
    assert lines[..n] == lines[..n - 1] + [line];
    GluedAppend(lines[..n - 1], [line]);
    GluedOne(line);
    var before := Copied(lines, start, end, n - 1);
    if n == 1 {
      ShareOfAll(lines, start, end, 0, before);
      NothingGlued();
      assert lines[..0] == [];
      assert before + line.source == line.source;
    } else {
      CopiedAllIsGlued(lines, start, end, n - 1);
      ShareOfAll(lines, start, end, n - 1, before);
      Assoc("\n", before, Glued([line]));
    }
  }

  lemma NothingGlued()
    ensures Glued([]) == ""
  {
  }

  lemma ShareOfAll(lines: seq<RenderedLine>, start: Position, end: Position, i: nat, before: string)
    requires lines != [] && lines[0].source != "" && lines[|lines| - 1].source != ""
    requires start == Position(0, 0) && end == Position(|lines| - 1, |lines[|lines| - 1].source| - 1)
    requires i < |lines| && (i > 0 ==> before != "")
    ensures LineShare(lines, start, end, i, before) ==
            if i == 0 then lines[0].source
            else (if lines[i].wrappedContinuation then "" else "\n") + lines[i].source
  {
    assert lines[i].source[0..|lines[i].source|] == lines[i].source;
  }

  /** Selecting from the first to the last cell of a document of wrapped and plain lines, at
      every terminal width, copies the lines as they were written, joined by newlines. The one
      exception is a character selection of a document with a single cell. */
  lemma SelectAllIsIdentity(look: Look, raws: seq<string>, cols: nat, lines: seq<RenderedLine>, mode: Mode)
    requires Document(look, raws, cols, lines) && raws != []
    requires forall i :: 0 <= i < |raws| ==> '\n' !in raws[i]
    requires SourceLine(raws[0]) != "" && SourceLine(raws[|raws| - 1]) != ""
    ensures lines != [] && lines[0].source != "" && lines[|lines| - 1].source != ""
    ensures var first, last := Position(0, 0), Position(|lines| - 1, |lines[|lines| - 1].source| - 1);
            var bounds := SelectionBounds(lines, SelectionState(Some(first), Some(last), mode));
            && (bounds.None? <==> mode == CharMode && |lines| == 1 && |lines[0].source| == 1)
            && (bounds.Some? ==>
                  && bounds.value == (first, last)
                  && Copied(lines, first, last, |lines|) == JoinedByNewlines(SourceLines(raws)))
  {
    hide SourceLine, Document, Copied, Glued, Lined;
    DocumentGlues(look, raws, cols, lines);
    DocumentEnd(look, raws, cols, lines);
    CopyAllOf(lines, SourceLines(raws));
  }

  lemma CopyAllOf(lines: seq<RenderedLine>, texts: seq<string>)
    requires lines != [] && lines[0].source != "" && lines[|lines| - 1].source != "" && !lines[0].wrappedContinuation
    requires texts != [] && Glued(lines) == Lined(texts)
    ensures var first, last := Position(0, 0), Position(|lines| - 1, |lines[|lines| - 1].source| - 1);
            Copied(lines, first, last, |lines|) == JoinedByNewlines(texts)
  {
    hide Copied, Glued;
    var first, last := Position(0, 0), Position(|lines| - 1, |lines[|lines| - 1].source| - 1);
    CopiedAllIsGlued(lines, first, last, |lines|);
    assert lines[..|lines|] == lines;
    var all := JoinedByNewlines(texts);
    Assoc("\n", texts[0], Lined(texts[1..]));
    assert Lined(texts) == "\n" + all;
    assert ("\n" + Copied(lines, first, last, |lines|))[1..] == Copied(lines, first, last, |lines|);
    assert ("\n" + all)[1..] == all;
  }
}
