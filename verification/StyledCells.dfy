/** Lines of terminal output: stripping ANSI sequences, parsing a line into styled cells and
    rendering cells back, with the selected ones in inverse video. A control sequence is ESC,
    `[`, and everything up to the first final byte `@` to `~` (section 5.4 of ECMA-48). */
module StyledCells {
  import opened Text

  const ESC: char := '\U{001B}'
  const RESET: string := [ESC, '[', '0', 'm']
  const SHORT_RESET: string := [ESC, '[', 'm']
  const INVERSE_ON: string := [ESC, '[', '7', 'm']
  const INVERSE_OFF: string := [ESC, '[', '2', '7', 'm']

  predicate IsFinal(c: char) {
    '@' <= c <= '~'
  }

  predicate StartsCsi(s: string) {
    |s| >= 2 && s[0] == ESC && s[1] == '['
  }

  /** How many characters of `s`, which follows ESC `[`, belong to the control sequence. */
  function CsiLength(s: string): (n: nat)
    ensures n <= |s|
    ensures forall i :: 0 <= i < n - 1 ==> !IsFinal(s[i])
    ensures n > 0 && !IsFinal(s[n - 1]) ==> n == |s|
    ensures n == 0 ==> s == ""
  {
    if s == "" then 0 else if IsFinal(s[0]) then 1 else 1 + CsiLength(s[1..])
  }

  /** The control sequence at the start of `s`, which may lack its final byte. */
  function CsiOf(s: string): (q: string)
    requires StartsCsi(s)
    ensures 2 <= |q| <= |s| && q == s[..|q|]
  {
    s[..2 + CsiLength(s[2..])]
  }

  function StripAnsi(s: string): string
    decreases |s|
  {
    if s == "" then ""
    else if StartsCsi(s) then StripAnsi(s[|CsiOf(s)|..])
    else [s[0]] + StripAnsi(s[1..])
  }

  datatype Glyph = Glyph(ch: char, style: string)

  /** The style after a control sequence: `m` sequences accumulate until a reset. */
  function StyleAfter(q: string, style: string): string
    requires q != ""
  {
    if q[|q| - 1] != 'm' then style
    else if q == SHORT_RESET || q == RESET then ""
    else style + q
  }

  function Scan(s: string, style: string): seq<Glyph>
    decreases |s|
  {
    if s == "" then []
    else if StartsCsi(s) then Scan(s[|CsiOf(s)|..], StyleAfter(CsiOf(s), style))
    else [Glyph(s[0], style)] + Scan(s[1..], style)
  }

  function CharsOf(glyphs: seq<Glyph>): (s: string)
    ensures |s| == |glyphs|
    ensures forall i :: 0 <= i < |s| ==> s[i] == glyphs[i].ch
  {
    seq(|glyphs|, i requires 0 <= i < |glyphs| => glyphs[i].ch)
  }

  // ---- the loops of the source

  method StripAnsiText(text: string) returns (stripped: string)
    ensures stripped == StripAnsi(text)
  {
    stripped := "";
    var i := 0;
    while i < |text|
      invariant i <= |text|
      invariant stripped + StripAnsi(text[i..]) == StripAnsi(text)
    {
      var ch := text[i];
      if ch == ESC && i + 1 < |text| && text[i + 1] == '[' {
        ghost var start := i;
        i := i + 2;
        var finished := false;
        while i < |text| && !finished
          invariant start + 2 <= i <= |text|
          invariant !finished ==> CsiLength(text[start + 2..]) == (i - start - 2) + CsiLength(text[i..])
          invariant finished ==> CsiLength(text[start + 2..]) == i - start - 2
          decreases |text| - i, !finished
        {
          assert text[i..][1..] == text[i + 1..];
          finished := IsFinal(text[i]);
          i := i + 1;
        }
        assert text[start..][2..] == text[start + 2..];
        assert text[start..][i - start..] == text[i..];
      } else {
        assert text[i..][1..] == text[i + 1..];
        stripped := stripped + [ch];
        i := i + 1;
      }
    }
  }

  datatype Cell = Cell(ch: char, startCol: nat, endCol: nat, style: string, sourceUnit: Option<nat>)

  function Width(width: char -> nat, ch: char): (w: nat)
    ensures w >= 1 && (width(ch) > 0 ==> w == width(ch)) && (width(ch) == 0 ==> w == 1)
  {
    Max(width(ch), 1)
  }

  /** Cell `k` of a line whose first `sourceCellCount` cells belong to the source text. */
  predicate CellOk(width: char -> nat, cells: seq<Cell>, k: nat, sourceCellCount: nat)
    requires k < |cells|
  {
    && cells[k].startCol == (if k == 0 then 0 else cells[k - 1].endCol)
    && cells[k].endCol == cells[k].startCol + Width(width, cells[k].ch)
    && cells[k].sourceUnit == if k < sourceCellCount then Some(k) else None
  }

  function GlyphsOf(cells: seq<Cell>): (g: seq<Glyph>)
    ensures |g| == |cells|
    ensures forall i :: 0 <= i < |g| ==> g[i] == Glyph(cells[i].ch, cells[i].style)
  {
    seq(|cells|, i requires 0 <= i < |cells| => Glyph(cells[i].ch, cells[i].style))
  }

  lemma {:induction false} CsiLengthIs(s: string, n: nat)
    requires 0 < n <= |s| && IsFinal(s[n - 1]) && forall i :: 0 <= i < n - 1 ==> !IsFinal(s[i])
    ensures CsiLength(s) == n
  {
    if n > 1 { CsiLengthIs(s[1..], n - 1); }
  }

  lemma {:induction false} CsiLengthAll(s: string)
    requires forall i :: 0 <= i < |s| ==> !IsFinal(s[i])
    ensures CsiLength(s) == |s|
  {
    if s != "" { CsiLengthAll(s[1..]); }
  }

  /** The inner loop of the parser: the sequence that starts at `start`, its final byte if it
      has one, and the index behind it. */
  method ReadControlSequence(line: string, start: nat) returns (sequence: string, terminator: Option<char>, next: nat)
    requires start <= |line| && StartsCsi(line[start..])
    ensures sequence == CsiOf(line[start..]) && next == start + |sequence| <= |line|
    ensures terminator == if |sequence| > 2 && IsFinal(sequence[|sequence| - 1]) then Some(sequence[|sequence| - 1]) else None
  {
    sequence := [ESC, '['];
    terminator := None;
    next := start + 2;
    while next < |line| && terminator.None?
      invariant start + 2 <= next <= |line|
      invariant sequence == line[start..next]
      invariant forall k :: start + 2 <= k < next - 1 ==> !IsFinal(line[k])
      invariant next == start + 2 ==> terminator.None?
      invariant next > start + 2 ==> terminator == if IsFinal(line[next - 1]) then Some(line[next - 1]) else None
      decreases |line| - next, terminator.None?
    {
      var ch := line[next];
      sequence := sequence + [ch];
      next := next + 1;
      if IsFinal(ch) {
        terminator := Some(ch);
      }
    }
    ghost var body := line[start..][2..];
    if terminator.Some? {
      CsiLengthIs(body, next - start - 2);
    } else {
      CsiLengthAll(body);
    }
  }

  lemma CellsSnoc(width: char -> nat, cells: seq<Cell>, cell: Cell, sourceCellCount: nat)
    requires forall k :: 0 <= k < |cells| ==> CellOk(width, cells, k, sourceCellCount)
    requires CellOk(width, cells + [cell], |cells|, sourceCellCount)
    ensures GlyphsOf(cells + [cell]) == GlyphsOf(cells) + [Glyph(cell.ch, cell.style)]
    ensures forall k :: 0 <= k < |cells + [cell]| ==> CellOk(width, cells + [cell], k, sourceCellCount)
  {
    forall k | 0 <= k < |cells| ensures CellOk(width, cells + [cell], k, sourceCellCount) {
      assert CellOk(width, cells, k, sourceCellCount);
    }
  }

  /** The next cell of the parser; `sourceIndex` counts the cells that belong to the source. */
  method PushCell(width: char -> nat, ch: char, style: string, cells: seq<Cell>, displayCol: nat, sourceIndex: nat, sourceCellCount: nat)
    returns (cells': seq<Cell>, displayCol': nat, sourceIndex': nat)
    requires forall k :: 0 <= k < |cells| ==> CellOk(width, cells, k, sourceCellCount)
    requires displayCol == if cells == [] then 0 else cells[|cells| - 1].endCol
    requires sourceIndex == Min(|cells|, sourceCellCount)
    ensures GlyphsOf(cells') == GlyphsOf(cells) + [Glyph(ch, style)]
    ensures forall k :: 0 <= k < |cells'| ==> CellOk(width, cells', k, sourceCellCount)
    ensures displayCol' == if cells' == [] then 0 else cells'[|cells'| - 1].endCol
    ensures sourceIndex' == Min(|cells'|, sourceCellCount)
  {
    var w := Width(width, ch);
    var sourceUnit := None;
    sourceIndex' := sourceIndex;
    if sourceIndex < sourceCellCount {
      sourceUnit := Some(sourceIndex);
      sourceIndex' := sourceIndex + 1;
    }
    CellsSnoc(width, cells, Cell(ch, displayCol, displayCol + w, style, sourceUnit), sourceCellCount);
    cells' := cells + [Cell(ch, displayCol, displayCol + w, style, sourceUnit)];
    displayCol' := displayCol + w;
  }

  lemma ScanAt(line: string, i: nat, style: string)
    requires i < |line|
    ensures StartsCsi(line[i..]) ==>
              Scan(line[i..], style) == Scan(line[i + |CsiOf(line[i..])|..], StyleAfter(CsiOf(line[i..]), style))
    ensures !StartsCsi(line[i..]) ==> Scan(line[i..], style) == [Glyph(line[i], style)] + Scan(line[i + 1..], style)
  {
    hide CsiOf, StyleAfter;
    if StartsCsi(line[i..]) {
      assert line[i..][|CsiOf(line[i..])|..] == line[i + |CsiOf(line[i..])|..];
    } else {
      assert line[i..][1..] == line[i + 1..];
    }
  }

  lemma StyleAfterTerminator(q: string, terminator: Option<char>, style: string)
    requires |q| >= 2 && q[1] == '['
    requires terminator == if |q| > 2 && IsFinal(q[|q| - 1]) then Some(q[|q| - 1]) else None
    ensures StyleAfter(q, style) ==
            if terminator == Some('m') then (if q == SHORT_RESET || q == RESET then "" else style + q) else style
  {
  }

  method ParseStyledCells(width: char -> nat, line: string, sourceCellCount: nat) returns (cells: seq<Cell>)
    ensures GlyphsOf(cells) == Scan(line, "")
    ensures forall k :: 0 <= k < |cells| ==> CellOk(width, cells, k, sourceCellCount)
  {
    hide CsiOf, GlyphsOf, Scan, CellOk, StyleAfter, IsFinal;
    cells := [];
    var activeStyle := "";
    var displayCol, sourceIndex, i := 0, 0, 0;
    NoGlyphs();
    assert line[0..] == line;
    while i < |line|
      invariant i <= |line|
      invariant GlyphsOf(cells) + Scan(line[i..], activeStyle) == Scan(line, "")
      invariant displayCol == if cells == [] then 0 else cells[|cells| - 1].endCol
      invariant sourceIndex == Min(|cells|, sourceCellCount)
      invariant forall k :: 0 <= k < |cells| ==> CellOk(width, cells, k, sourceCellCount)
    {
      var ch := line[i];
      ScanAt(line, i, activeStyle);
      if ch == ESC && i + 1 < |line| && line[i + 1] == '[' {
        var sequence, terminator, next := ReadControlSequence(line, i);
        StyleAfterTerminator(sequence, terminator, activeStyle);
        if terminator == Some('m') {
          if sequence == SHORT_RESET || sequence == RESET {
            activeStyle := "";
          } else {
            activeStyle := activeStyle + sequence;
          }
        }
        i := next;
      } else {
        Assoc(GlyphsOf(cells), [Glyph(ch, activeStyle)], Scan(line[i + 1..], activeStyle));
        cells, displayCol, sourceIndex :=
          PushCell(width, ch, activeStyle, cells, displayCol, sourceIndex, sourceCellCount);
        i := i + 1;
      }
    }
    NothingToScan(activeStyle);
  }

  lemma NothingToScan(style: string)
    ensures Scan("", style) == []
  {
  }

  lemma NoGlyphs()
    ensures GlyphsOf([]) == []
  {
  }

  /** Rendering from a cell on, with `active` the style written last. */
  function Render(glyphs: seq<Glyph>, selected: seq<bool>, active: string): string
    requires |selected| == |glyphs|
  {
    if glyphs == [] then (if active == "" then "" else RESET)
    else StyleChange(glyphs[0].style, active) + Shown(glyphs[0].ch, selected[0]) + Render(glyphs[1..], selected[1..], glyphs[0].style)
  }

  function StyleChange(style: string, active: string): string {
    if style == active then "" else RESET + style
  }

  function Shown(ch: char, selected: bool): string {
    if selected then INVERSE_ON + [ch] + INVERSE_OFF else [ch]
  }

  lemma RenderFrom(glyphs: seq<Glyph>, selected: seq<bool>, i: nat, active: string)
    requires |selected| == |glyphs| && i < |glyphs|
    ensures Render(glyphs[i..], selected[i..], active)
         == StyleChange(glyphs[i].style, active) + Shown(glyphs[i].ch, selected[i])
            + Render(glyphs[i + 1..], selected[i + 1..], glyphs[i].style)
  {
    hide StyleChange, Shown;
    assert glyphs[i..][1..] == glyphs[i + 1..] && selected[i..][1..] == selected[i + 1..];
  }

  /** `selected` says of each cell whether it lies in the selection. */
  method RenderLine(cells: seq<Cell>, selected: seq<bool>) returns (rendered: string)
    requires |selected| == |cells|
    ensures rendered == Render(GlyphsOf(cells), selected, "")
  {
    hide Render, GlyphsOf;
    rendered := "";
    var activeStyle := "";
    ghost var glyphs := GlyphsOf(cells);
    ghost var all := Render(glyphs, selected, "");
    assert glyphs[0..] == glyphs && selected[0..] == selected;
    for i := 0 to |cells|
      invariant rendered + Render(glyphs[i..], selected[i..], activeStyle) == all
    {
      var cell := cells[i];
      RenderFrom(glyphs, selected, i, activeStyle);
      ghost var rest := Render(glyphs[i + 1..], selected[i + 1..], cell.style);
      ghost var was, change := rendered, StyleChange(cell.style, activeStyle);
      if cell.style != activeStyle {
        rendered := rendered + RESET;
        if cell.style != "" {
          rendered := rendered + cell.style;
        }
        activeStyle := cell.style;
      }
      assert rendered == was + change;
      if selected[i] {
        rendered := rendered + INVERSE_ON;
      }
      rendered := rendered + [cell.ch];
      if selected[i] {
        rendered := rendered + INVERSE_OFF;
      }
      assert rendered == was + change + Shown(cell.ch, selected[i]);
      Assoc(was, change, Shown(cell.ch, selected[i]));
      Assoc(was, change + Shown(cell.ch, selected[i]), rest);
    }
    NothingToRender(activeStyle);
    assert glyphs[|cells|..] == [] && selected[|cells|..] == [];
    if activeStyle != "" {
      rendered := rendered + RESET;
    }
  }

  lemma NothingToRender(active: string)
    ensures Render([], [], active) == if active == "" then "" else RESET
  {
  }

  // ---- stripping and parsing agree

  /** Parsing and stripping see the same characters in every line, in whatever style they start. */
  lemma {:induction false} ScanSeesStripped(s: string, style: string)
    ensures CharsOf(Scan(s, style)) == StripAnsi(s)
    decreases |s|
  {
    if s != "" {
      if StartsCsi(s) {
        ScanSeesStripped(s[|CsiOf(s)|..], StyleAfter(CsiOf(s), style));
      } else {
        ScanSeesStripped(s[1..], style);
        assert CharsOf([Glyph(s[0], style)] + Scan(s[1..], style)) == [s[0]] + CharsOf(Scan(s[1..], style));
      }
    }
  }

  // ---- styles

  /** A complete control sequence. */
  predicate IsCsi(q: string) {
    StartsCsi(q) && |q| > 2 && IsFinal(q[|q| - 1]) && forall i :: 2 <= i < |q| - 1 ==> !IsFinal(q[i])
  }

  lemma CsiOfComplete(q: string, t: string)
    requires IsCsi(q)
    ensures StartsCsi(q + t) && CsiOf(q + t) == q && (q + t)[|q|..] == t
  {
    var body := (q + t)[2..];
    assert forall i :: 0 <= i < |q| - 2 ==> body[i] == q[i + 2];
    CsiLengthIs(body, |q| - 2);
  }

  lemma StripCsi(q: string, t: string)
    requires IsCsi(q)
    ensures StripAnsi(q + t) == StripAnsi(t)
  {
    CsiOfComplete(q, t);
  }

  lemma ScanCsi(q: string, t: string, style: string)
    requires IsCsi(q)
    ensures Scan(q + t, style) == Scan(t, StyleAfter(q, style))
  {
    CsiOfComplete(q, t);
  }

  /** A sequence that the parser appends to the active style. */
  predicate IsStyling(q: string) {
    IsCsi(q) && q[|q| - 1] == 'm' && q != RESET && q != SHORT_RESET
  }

  function Joined(parts: seq<string>): string {
    if parts == [] then "" else parts[0] + Joined(parts[1..])
  }

  /** The styles that parsing can produce. */
  ghost predicate IsStyle(style: string) {
    exists parts: seq<string> :: Joined(parts) == style && forall q :: q in parts ==> IsStyling(q)
  }

  lemma EmptyStyle()
    ensures IsStyle("")
  {
    assert Joined([]) == "";
  }

  lemma {:induction false} JoinedSnoc(parts: seq<string>, q: string)
    ensures Joined(parts + [q]) == Joined(parts) + q
  {
    if parts == [] {
      assert parts + [q] == [q];
    } else {
      assert (parts + [q])[1..] == parts[1..] + [q];
      JoinedSnoc(parts[1..], q);
    }
  }

  lemma StyleAfterIsStyle(s: string, style: string)
    requires StartsCsi(s) && IsStyle(style)
    ensures IsStyle(StyleAfter(CsiOf(s), style))
  {
    var q := CsiOf(s);
    EmptyStyle();
    if q[|q| - 1] == 'm' && q != SHORT_RESET && q != RESET {
      var parts: seq<string> :| Joined(parts) == style && forall p :: p in parts ==> IsStyling(p);
      assert q[2..] == s[2..][..|q| - 2];
      assert IsStyling(q);
      JoinedSnoc(parts, q);
    }
  }

  /** Every cell of a parsed line carries a style. */
  lemma {:induction false} ScannedStyles(s: string, style: string)
    requires IsStyle(style)
    ensures forall g :: g in Scan(s, style) ==> IsStyle(g.style)
    decreases |s|
  {
    if s != "" {
      if StartsCsi(s) {
        StyleAfterIsStyle(s, style);
        ScannedStyles(s[|CsiOf(s)|..], StyleAfter(CsiOf(s), style));
      } else {
        ScannedStyles(s[1..], style);
      }
    }
  }

  lemma JoinedCons(parts: seq<string>)
    requires parts != []
    ensures Joined(parts) == parts[0] + Joined(parts[1..])
  {
  }

  lemma {:induction false} ScanParts(parts: seq<string>, style: string, t: string)
    requires forall q :: q in parts ==> IsStyling(q)
    ensures Scan(Joined(parts) + t, style) == Scan(t, style + Joined(parts))
    ensures StripAnsi(Joined(parts) + t) == StripAnsi(t)
  {
    hide Scan, StripAnsi, Joined, IsCsi;
    if parts != [] {
      var q, rest := parts[0], Joined(parts[1..]);
      assert q in parts && forall p :: p in parts[1..] ==> p in parts;
      JoinedCons(parts);
      Assoc(q, rest, t);
      Assoc(style, q, rest);
      ScanCsi(q, rest + t, style);
      StripCsi(q, rest + t);
      ScanParts(parts[1..], style + q, t);
    } else {
      assert Joined([]) == "" by { NothingJoined(); }
      assert "" + t == t && style + "" == style;
    }
  }

  lemma NothingJoined()
    ensures Joined([]) == ""
  {
  }

  /** Writing a style after a reset makes it the active one. */
  lemma ScanStyleChange(style: string, active: string, t: string)
    requires IsStyle(style)
    ensures Scan(StyleChange(style, active) + t, active) == Scan(t, style)
    ensures StripAnsi(StyleChange(style, active) + t) == StripAnsi(t)
  {
    if style == active {
      assert "" + t == t;
    } else {
      var parts: seq<string> :| Joined(parts) == style && forall q :: q in parts ==> IsStyling(q);
      assert RESET + style + t == RESET + (style + t);
      ScanCsi(RESET, style + t, active);
      StripCsi(RESET, style + t);
      ScanParts(parts, "", t);
      assert "" + style == style;
    }
  }

  // ---- rendering and parsing back

  /** An unselected ESC cell directly followed, in the same style, by an unselected `[` cell:
      in the rendered line the two read as the start of a control sequence. */
  predicate Clash(glyphs: seq<Glyph>, selected: seq<bool>)
    requires |selected| == |glyphs|
  {
    && |glyphs| >= 2
    && glyphs[0].ch == ESC && glyphs[1].ch == '['
    && glyphs[0].style == glyphs[1].style && !selected[0] && !selected[1]
  }

  predicate NoClash(glyphs: seq<Glyph>, selected: seq<bool>)
    requires |selected| == |glyphs|
  {
    glyphs == [] || (!Clash(glyphs, selected) && NoClash(glyphs[1..], selected[1..]))
  }

  ghost predicate Styled(glyphs: seq<Glyph>) {
    forall g :: g in glyphs ==> IsStyle(g.style)
  }

  /** What follows an unselected cell does not make its character start a control sequence. */
  lemma TailAfterCell(glyphs: seq<Glyph>, selected: seq<bool>)
    requires |selected| == |glyphs| && glyphs != [] && !Clash(glyphs, selected) && !selected[0]
    ensures !StartsCsi([glyphs[0].ch] + Render(glyphs[1..], selected[1..], glyphs[0].style))
  {
    var t := Render(glyphs[1..], selected[1..], glyphs[0].style);
    if |glyphs| >= 2 {
      var next := StyleChange(glyphs[1].style, glyphs[0].style) + Shown(glyphs[1].ch, selected[1]);
      assert t[0] == next[0];
    }
  }

  lemma NothingShown(active: string)
    ensures StripAnsi(Render([], [], active)) == ""
  {
    if active != "" {
      StripCsi(RESET, "");
      assert RESET + "" == RESET;
    }
  }

  lemma {:induction false} StripRendered(glyphs: seq<Glyph>, selected: seq<bool>, active: string)
    requires |selected| == |glyphs| && Styled(glyphs) && NoClash(glyphs, selected)
    ensures StripAnsi(Render(glyphs, selected, active)) == CharsOf(glyphs)
  {
    hide StripAnsi, Render, Clash;
    if glyphs == [] {
      assert selected == [];
      NothingShown(active);
    } else {
      StripRendered(glyphs[1..], selected[1..], glyphs[0].style);
      StripFirst(glyphs, selected, active);
      assert CharsOf(glyphs) == [glyphs[0].ch] + CharsOf(glyphs[1..]);
    }
  }

  /** A cell that does not clash shows its own character. */
  lemma StripCell(glyphs: seq<Glyph>, selected: seq<bool>)
    requires |selected| == |glyphs| && glyphs != [] && !Clash(glyphs, selected)
    ensures var t := Render(glyphs[1..], selected[1..], glyphs[0].style);
            StripAnsi(Shown(glyphs[0].ch, selected[0]) + t) == [glyphs[0].ch] + StripAnsi(t)
  {
    var ch, t := glyphs[0].ch, Render(glyphs[1..], selected[1..], glyphs[0].style);
    if selected[0] {
      StripSelected(ch, t);
    } else {
      TailAfterCell(glyphs, selected);
      assert ([ch] + t)[1..] == t;
    }
  }

  /** The style written before a cell shows nothing. */
  lemma StripChange(glyphs: seq<Glyph>, selected: seq<bool>, active: string)
    requires |selected| == |glyphs| && Styled(glyphs) && glyphs != []
    ensures StripAnsi(Render(glyphs, selected, active))
         == StripAnsi(Shown(glyphs[0].ch, selected[0]) + Render(glyphs[1..], selected[1..], glyphs[0].style))
  {
    hide StripAnsi, Shown, StyleChange;
    var rest := Shown(glyphs[0].ch, selected[0]) + Render(glyphs[1..], selected[1..], glyphs[0].style);
    assert glyphs[0] in glyphs;
    ScanStyleChange(glyphs[0].style, active, rest);
    assert Render(glyphs, selected, active) == StyleChange(glyphs[0].style, active) + rest;
  }

  lemma StripFirst(glyphs: seq<Glyph>, selected: seq<bool>, active: string)
    requires |selected| == |glyphs| && Styled(glyphs) && glyphs != [] && !Clash(glyphs, selected)
    ensures StripAnsi(Render(glyphs, selected, active))
         == [glyphs[0].ch] + StripAnsi(Render(glyphs[1..], selected[1..], glyphs[0].style))
  {
    hide StripAnsi, Render;
    StripChange(glyphs, selected, active);
    StripCell(glyphs, selected);
  }

  lemma ShownSelected(ch: char, t: string)
    ensures Shown(ch, true) + t == INVERSE_ON + ([ch] + (INVERSE_OFF + t))
  {
  }

  lemma StripPlain(ch: char, t: string)
    requires !StartsCsi([ch] + t)
    ensures StripAnsi([ch] + t) == [ch] + StripAnsi(t)
  {
    assert ([ch] + t)[1..] == t;
  }

  lemma StripSelected(ch: char, t: string)
    ensures StripAnsi(Shown(ch, true) + t) == [ch] + StripAnsi(t)
  {
    hide StripAnsi, Shown;
    var tail := INVERSE_OFF + t;
    ShownSelected(ch, t);
    StripCsi(INVERSE_ON, [ch] + tail);
    assert ([ch] + tail)[1] == ESC;
    StripPlain(ch, tail);
    StripCsi(INVERSE_OFF, t);
  }

  /** Nothing selected. */
  function Unselected(n: nat): seq<bool> {
    seq(n, _ => false)
  }

  lemma {:induction false} ScanRendered(glyphs: seq<Glyph>, selected: seq<bool>, active: string)
    requires |selected| == |glyphs| && Styled(glyphs) && NoClash(glyphs, selected)
    requires forall b :: b in selected ==> !b
    ensures Scan(Render(glyphs, selected, active), active) == glyphs
  {
    if glyphs == [] {
      if active != "" {
        ScanCsi(RESET, "", active);
        assert RESET + "" == RESET;
      }
    } else {
      hide Scan;
      assert selected[0] in selected && forall b :: b in selected[1..] ==> b in selected;
      ScanRendered(glyphs[1..], selected[1..], glyphs[0].style);
      ScanFirst(glyphs, selected, active);
      assert glyphs == [glyphs[0]] + glyphs[1..];
    }
  }

  lemma ScanFirst(glyphs: seq<Glyph>, selected: seq<bool>, active: string)
    requires |selected| == |glyphs| && Styled(glyphs) && glyphs != [] && !Clash(glyphs, selected) && !selected[0]
    ensures Scan(Render(glyphs, selected, active), active)
         == [glyphs[0]] + Scan(Render(glyphs[1..], selected[1..], glyphs[0].style), glyphs[0].style)
  {
    hide Scan, Render, StyleChange, Clash;
    var g := glyphs[0];
    var t := Render(glyphs[1..], selected[1..], g.style);
    assert g in glyphs;
    TailAfterCell(glyphs, selected);
    RenderHead(glyphs, selected, active);
    ScanStyleChange(g.style, active, [g.ch] + t);
    CharTakesStyle(g.ch, t, g.style);
  }

  // ---- what the rendered cells look like

  /** The codes that `n` selected cells leave behind when the style is not written again. */
  function Toggles(n: nat): string {
    if n == 0 then "" else Toggles(n - 1) + (INVERSE_ON + INVERSE_OFF)
  }

  /** The cells as the terminal gets them: each in its own style, behind the codes of the selected
      cells before it in the same style, and in inverse video exactly when it is selected. */
  function Drawn(glyphs: seq<Glyph>, selected: seq<bool>, active: string, n: nat): (r: seq<Glyph>)
    requires |selected| == |glyphs|
    ensures |r| == |glyphs|
  {
    if glyphs == [] then []
    else
      var g := glyphs[0];
      var m := if g.style == active then n else 0;
      [Glyph(g.ch, g.style + Toggles(m) + if selected[0] then INVERSE_ON else "")]
      + Drawn(glyphs[1..], selected[1..], g.style, if selected[0] then m + 1 else m)
  }

  lemma ScanChangeFrom(style: string, active: string, n: nat, t: string)
    requires IsStyle(style)
    ensures Scan(StyleChange(style, active) + t, active + Toggles(n)) == Scan(t, style + Toggles(if style == active then n else 0))
  {
    hide Scan;
    if style == active {
      assert "" + t == t;
    } else {
      ScanAnyReset(style, active + Toggles(n), t);
      assert style + "" == style;
    }
  }

  lemma ScanAnyReset(style: string, before: string, t: string)
    requires IsStyle(style)
    ensures Scan(RESET + style + t, before) == Scan(t, style)
  {
    hide Scan;
    var parts: seq<string> :| Joined(parts) == style && forall q :: q in parts ==> IsStyling(q);
    assert RESET + style + t == RESET + (style + t);
    ScanCsi(RESET, style + t, before);
    ScanParts(parts, "", t);
    assert "" + style == style;
  }

  /** A selected cell is seen in inverse video, and the codes around it stay in the style. */
  lemma ScanSelected(ch: char, t: string, style: string, m: nat)
    ensures Scan(Shown(ch, true) + t, style + Toggles(m))
         == [Glyph(ch, style + Toggles(m) + INVERSE_ON)] + Scan(t, style + Toggles(m + 1))
  {
    hide Scan, Shown;
    var s, tail := style + Toggles(m), INVERSE_OFF + t;
    ShownSelected(ch, t);
    ScanCsi(INVERSE_ON, [ch] + tail, s);
    assert ([ch] + tail)[1] == ESC;
    CharTakesStyle(ch, tail, s + INVERSE_ON);
    ScanCsi(INVERSE_OFF, t, s + INVERSE_ON);
    Assoc(s, INVERSE_ON, INVERSE_OFF);
    Assoc(style, Toggles(m), INVERSE_ON + INVERSE_OFF);
  }

  lemma RenderHead(glyphs: seq<Glyph>, selected: seq<bool>, active: string)
    requires |selected| == |glyphs| && glyphs != []
    ensures Render(glyphs, selected, active)
         == StyleChange(glyphs[0].style, active) + (Shown(glyphs[0].ch, selected[0]) + Render(glyphs[1..], selected[1..], glyphs[0].style))
  {
    hide StyleChange, Shown;
  }

  lemma ScanCell(glyphs: seq<Glyph>, selected: seq<bool>, active: string, n: nat)
    requires |selected| == |glyphs| && Styled(glyphs) && glyphs != [] && !Clash(glyphs, selected)
    ensures var g := glyphs[0];
            var m := if g.style == active then n else 0;
            Scan(Render(glyphs, selected, active), active + Toggles(n))
            == [Glyph(g.ch, g.style + Toggles(m) + if selected[0] then INVERSE_ON else "")]
               + Scan(Render(glyphs[1..], selected[1..], g.style), g.style + Toggles(if selected[0] then m + 1 else m))
  {
    hide Scan, Render, Toggles, StyleChange, Clash;
    var g := glyphs[0];
    var m := if g.style == active then n else 0;
    var t := Render(glyphs[1..], selected[1..], g.style);
    assert g in glyphs;
    RenderHead(glyphs, selected, active);
    ScanChangeFrom(g.style, active, n, Shown(g.ch, selected[0]) + t);
    NoToggles(g.style);
    if selected[0] {
      ScanSelected(g.ch, t, g.style, m);
    } else {
      TailAfterCell(glyphs, selected);
      CharTakesStyle(g.ch, t, g.style + Toggles(m));
      assert g.style + Toggles(m) + "" == g.style + Toggles(m);
    }
  }

  lemma NoToggles(style: string)
    ensures style + Toggles(0) == style
  {
  }

  lemma NothingDrawn(active: string, n: nat)
    ensures Scan(Render([], [], active), active + Toggles(n)) == Drawn([], [], active, n)
  {
    if active != "" {
      ScanCsi(RESET, "", active + Toggles(n));
      assert RESET + "" == RESET;
    }
  }

  /** Parsing a rendered line, selected cells included. */
  lemma {:induction false} ScanDrawn(glyphs: seq<Glyph>, selected: seq<bool>, active: string, n: nat)
    requires |selected| == |glyphs| && Styled(glyphs) && NoClash(glyphs, selected)
    ensures Scan(Render(glyphs, selected, active), active + Toggles(n)) == Drawn(glyphs, selected, active, n)
    decreases |glyphs|
  {
    hide Scan, Render, Toggles, Clash;
    if glyphs == [] {
      assert selected == [];
      NothingDrawn(active, n);
    } else {
      var g := glyphs[0];
      var m := if g.style == active then n else 0;
      ScanCell(glyphs, selected, active, n);
      ScanDrawn(glyphs[1..], selected[1..], g.style, if selected[0] then m + 1 else m);
    }
  }

  /** Each drawn cell has its own character and style, and its style ends in the code for inverse
      video exactly when it is selected, unless its own style ends in that code. */
  lemma {:induction false} DrawnCell(glyphs: seq<Glyph>, selected: seq<bool>, active: string, n: nat, k: nat)
    requires |selected| == |glyphs| && k < |glyphs|
    ensures var d := Drawn(glyphs, selected, active, n)[k];
            && d.ch == glyphs[k].ch
            && exists m :: d.style == glyphs[k].style + Toggles(m) + if selected[k] then INVERSE_ON else ""
    decreases |glyphs|
  {
    var g := glyphs[0];
    var m := if g.style == active then n else 0;
    hide Toggles;
    if k == 0 {
      assert Drawn(glyphs, selected, active, n)[0].style == glyphs[0].style + Toggles(m) + if selected[0] then INVERSE_ON else "";
    } else {
      DrawnCell(glyphs[1..], selected[1..], g.style, if selected[0] then m + 1 else m, k - 1);
    }
  }

  /** A rendered line leaves no style behind: when its last cell has one, it ends in a reset. */
  lemma {:induction false} EndsInReset(glyphs: seq<Glyph>, selected: seq<bool>, active: string)
    requires |selected| == |glyphs| && (if glyphs == [] then active else glyphs[|glyphs| - 1].style) != ""
    ensures var r := Render(glyphs, selected, active); |r| >= 4 && r[|r| - 4..] == [ESC, '[', '0', 'm']
    decreases |glyphs|
  {
    if glyphs != [] {
      hide Shown, StyleChange;
      EndsInReset(glyphs[1..], selected[1..], glyphs[0].style);
      RenderHead(glyphs, selected, active);
    }
  }

  // ---- a clash always shows

  /** What is left of the rendered cells when a control sequence has already been opened
      before them: the characters seen are at most two more than the cells, and with exactly
      two more the first is a digit. */
  lemma {:induction false} EatenRendering(glyphs: seq<Glyph>, selected: seq<bool>, active: string)
    requires |selected| == |glyphs| && Styled(glyphs)
    ensures var r := Render(glyphs, selected, active);
            var seen := StripAnsi(r[CsiLength(r)..]);
            && |seen| <= |glyphs| + 2
            && (|seen| == |glyphs| + 2 ==> seen[0] != ESC)
    decreases |glyphs|, 2
  {
    hide StripAnsi, Render, CsiLength, Shown;
    if glyphs == [] {
      NothingEaten(active);
    } else {
      StrippedLength(glyphs[1..], selected[1..], glyphs[0].style);
      if glyphs[0].style != active {
        EatenChange(glyphs, selected, active);
        StrippedShown(glyphs, selected);
      } else if selected[0] {
        EatenInverse(glyphs, selected);
      } else {
        EatenChar(glyphs, selected);
        EatenRendering(glyphs[1..], selected[1..], glyphs[0].style);
      }
    }
  }

  lemma CsiLengthCons(ch: char, t: string)
    ensures CsiLength([ch] + t) == if IsFinal(ch) then 1 else 1 + CsiLength(t)
  {
    assert ([ch] + t)[1..] == t;
  }

  lemma RenderSameStyle(glyphs: seq<Glyph>, selected: seq<bool>)
    requires |selected| == |glyphs| && glyphs != []
    ensures Render(glyphs, selected, glyphs[0].style)
         == Shown(glyphs[0].ch, selected[0]) + Render(glyphs[1..], selected[1..], glyphs[0].style)
  {
    hide Shown;
    assert "" + Shown(glyphs[0].ch, selected[0]) == Shown(glyphs[0].ch, selected[0]);
  }

  /** A plain character either ends the open sequence or is eaten too. */
  lemma EatenChar(glyphs: seq<Glyph>, selected: seq<bool>)
    requires |selected| == |glyphs| && glyphs != [] && !selected[0]
    ensures var r := Render(glyphs, selected, glyphs[0].style);
            var t := Render(glyphs[1..], selected[1..], glyphs[0].style);
            r[CsiLength(r)..] == if IsFinal(glyphs[0].ch) then t else t[CsiLength(t)..]
  {
    hide Render, CsiLength, IsFinal;
    var ch, t := glyphs[0].ch, Render(glyphs[1..], selected[1..], glyphs[0].style);
    RenderSameStyle(glyphs, selected);
    CsiLengthCons(ch, t);
    assert ([ch] + t)[1..] == t;
    assert ([ch] + t)[1 + CsiLength(t)..] == t[CsiLength(t)..];
  }

  lemma NothingEaten(active: string)
    ensures var r := Render([], [], active);
            var seen := StripAnsi(r[CsiLength(r)..]);
            |seen| <= 2 && (|seen| == 2 ==> seen[0] != ESC)
  {
    if active != "" {
      EatenSequence("0m", "");
      assert [ESC, '['] + ("0m" + "") == RESET;
    }
  }

  lemma EatenChange(glyphs: seq<Glyph>, selected: seq<bool>, active: string)
    requires |selected| == |glyphs| && Styled(glyphs) && glyphs != [] && glyphs[0].style != active
    ensures var r := Render(glyphs, selected, active);
            StripAnsi(r[CsiLength(r)..])
            == "0m" + StripAnsi(Shown(glyphs[0].ch, selected[0]) + Render(glyphs[1..], selected[1..], glyphs[0].style))
  {
    hide StripAnsi, Shown, CsiLength;
    var style, shown, t := glyphs[0].style, Shown(glyphs[0].ch, selected[0]), Render(glyphs[1..], selected[1..], glyphs[0].style);
    var rest := shown + t;
    assert glyphs[0] in glyphs;
    Assoc(RESET + style, shown, t);
    Assoc(RESET, style, rest);
    Assoc([ESC, '['], "0m", style + rest);
    assert [ESC, '['] + "0m" == RESET;
    EatenSequence("0m", style + rest);
    StripStyle(style, rest);
  }

  lemma EatenInverse(glyphs: seq<Glyph>, selected: seq<bool>)
    requires |selected| == |glyphs| && glyphs != [] && selected[0]
    ensures var r := Render(glyphs, selected, glyphs[0].style);
            StripAnsi(r[CsiLength(r)..])
            == "7m" + ([glyphs[0].ch] + StripAnsi(Render(glyphs[1..], selected[1..], glyphs[0].style)))
  {
    hide StripAnsi, CsiLength, Render, Shown;
    var ch, t := glyphs[0].ch, Render(glyphs[1..], selected[1..], glyphs[0].style);
    var rest := [ch] + (INVERSE_OFF + t);
    RenderSameStyle(glyphs, selected);
    ShownSelected(ch, t);
    Assoc([ESC, '['], "7m", rest);
    assert [ESC, '['] + "7m" == INVERSE_ON;
    EatenSequence("7m", rest);
    StripSelected(ch, t);
    StripCsi(INVERSE_ON, rest);
  }

  lemma StripStyle(style: string, t: string)
    requires IsStyle(style)
    ensures StripAnsi(style + t) == StripAnsi(t)
  {
    var parts: seq<string> :| Joined(parts) == style && forall q :: q in parts ==> IsStyling(q);
    ScanParts(parts, "", t);
  }

  /** The bracket of a sequence ends the open one, and its two parameters become visible. */
  lemma EatenSequence(params: string, rest: string)
    requires |params| == 2 && params[0] != ESC && params[1] != ESC
    ensures var s := [ESC, '['] + (params + rest);
            StripAnsi(s[CsiLength(s)..]) == params + StripAnsi(rest)
  {
    hide StripAnsi, CsiLength;
    var s := [ESC, '['] + (params + rest);
    CsiLengthIs(s, 2);
    assert s[2..] == [params[0]] + ([params[1]] + rest);
    StripPlain(params[0], [params[1]] + rest);
    StripPlain(params[1], rest);
    Assoc([params[0]], [params[1]], StripAnsi(rest));
    assert [params[0]] + [params[1]] == params;
  }

  lemma StrippedShown(glyphs: seq<Glyph>, selected: seq<bool>)
    requires |selected| == |glyphs| && Styled(glyphs) && glyphs != []
    ensures |StripAnsi(Shown(glyphs[0].ch, selected[0]) + Render(glyphs[1..], selected[1..], glyphs[0].style))| <= |glyphs|
    decreases |glyphs|, 1
  {
    var g := glyphs[0];
    var t := Render(glyphs[1..], selected[1..], g.style);
    StrippedLength(glyphs[1..], selected[1..], g.style);
    if selected[0] {
      StripSelected(g.ch, t);
    } else if Clash(glyphs, selected) {
      ClashLength(glyphs, selected);
    } else {
      TailAfterCell(glyphs, selected);
      assert ([g.ch] + t)[1..] == t;
    }
  }

  lemma StripOne(s: string)
    requires StartsCsi(s)
    ensures StripAnsi(s) == StripAnsi(s[2 + CsiLength(s[2..])..])
  {
  }

  lemma ClashLength(glyphs: seq<Glyph>, selected: seq<bool>)
    requires |selected| == |glyphs| && Styled(glyphs) && glyphs != [] && Clash(glyphs, selected)
    ensures var seen := StripAnsi([ESC] + Render(glyphs[1..], selected[1..], glyphs[0].style));
            |seen| <= |glyphs| && (|seen| == |glyphs| ==> seen[0] != ESC)
    decreases |glyphs|, 0
  {
    hide StripAnsi, Render, CsiLength;
    var style := glyphs[0].style;
    var t := Render(glyphs[2..], selected[2..], style);
    assert glyphs[1..][1..] == glyphs[2..] && selected[1..][1..] == selected[2..];
    RenderSameStyle(glyphs[1..], selected[1..]);
    var s := [ESC] + (['['] + t);
    assert s[2..] == t && s[2 + CsiLength(t)..] == t[CsiLength(t)..];
    StripOne(s);
    EatenRendering(glyphs[2..], selected[2..], style);
  }

  /** Rendering never shows more characters than there are cells. */
  lemma {:induction false} StrippedLength(glyphs: seq<Glyph>, selected: seq<bool>, active: string)
    requires |selected| == |glyphs| && Styled(glyphs)
    ensures |StripAnsi(Render(glyphs, selected, active))| <= |glyphs|
    decreases |glyphs|, 2
  {
    hide StripAnsi;
    if glyphs == [] {
      StripRendered(glyphs, selected, active);
    } else {
      StrippedShown(glyphs, selected);
      StripChange(glyphs, selected, active);
    }
  }

  lemma {:induction false} ClashShows(glyphs: seq<Glyph>, selected: seq<bool>, active: string)
    requires |selected| == |glyphs| && Styled(glyphs) && !NoClash(glyphs, selected)
    ensures StripAnsi(Render(glyphs, selected, active)) != CharsOf(glyphs)
  {
    hide StripAnsi, Render;
    if Clash(glyphs, selected) {
      ClashShowsFirst(glyphs, selected, active);
    } else {
      ClashShows(glyphs[1..], selected[1..], glyphs[0].style);
      StripFirst(glyphs, selected, active);
      assert CharsOf(glyphs)[1..] == CharsOf(glyphs[1..]);
      assert StripAnsi(Render(glyphs, selected, active))[1..] == StripAnsi(Render(glyphs[1..], selected[1..], glyphs[0].style));
    }
  }

  lemma ClashShowsFirst(glyphs: seq<Glyph>, selected: seq<bool>, active: string)
    requires |selected| == |glyphs| && Styled(glyphs) && Clash(glyphs, selected)
    ensures StripAnsi(Render(glyphs, selected, active)) != CharsOf(glyphs)
  {
    hide StripAnsi, Render;
    ClashLength(glyphs, selected);
    StripChange(glyphs, selected, active);
    assert CharsOf(glyphs)[0] == ESC;
  }

  // ---- the results

  /** Highlighting a selection changes no text exactly when no ESC cell runs into a `[` cell. */
  lemma HighlightKeepsTextIff(line: string, selected: seq<bool>)
    requires |selected| == |Scan(line, "")|
    ensures StripAnsi(Render(Scan(line, ""), selected, "")) == StripAnsi(line) <==> NoClash(Scan(line, ""), selected)
  {
    hide StripAnsi, Render, Scan, NoClash;
    var glyphs := Scan(line, "");
    EmptyStyle();
    ScannedStyles(line, "");
    ScanSeesStripped(line, "");
    if NoClash(glyphs, selected) {
      StripRendered(glyphs, selected, "");
    } else {
      ClashShows(glyphs, selected, "");
    }
  }

  /** The selection is drawn where it is: in the rendered line cell `k` has its character and
      style, and behind the codes left by earlier selected cells the code for inverse video
      exactly when it is selected. */
  lemma SelectionIsDrawn(line: string, selected: seq<bool>, k: nat)
    requires |selected| == |Scan(line, "")| && NoClash(Scan(line, ""), selected) && k < |selected|
    ensures var glyphs := Scan(line, "");
            var drawn := Scan(Render(glyphs, selected, ""), "");
            && drawn == Drawn(glyphs, selected, "", 0)
            && |drawn| == |glyphs| && drawn[k].ch == glyphs[k].ch
            && exists m :: drawn[k].style == glyphs[k].style + Toggles(m) + if selected[k] then [ESC, '[', '7', 'm'] else ""
  {
    hide Scan, Render, NoClash, Drawn;
    var glyphs := Scan(line, "");
    EmptyStyle();
    ScannedStyles(line, "");
    ScanDrawn(glyphs, selected, "", 0);
    NoToggles("");
    DrawnCell(glyphs, selected, "", 0, k);
  }

  /** Parsing the unselected rendering gives the same cells back exactly under the same condition. */
  lemma RoundTripIff(line: string)
    ensures var glyphs := Scan(line, "");
            var none := Unselected(|glyphs|);
            Scan(Render(glyphs, none, ""), "") == glyphs <==> NoClash(glyphs, none)
  {
    hide StripAnsi, Render, Scan, NoClash;
    var glyphs := Scan(line, "");
    var none := Unselected(|glyphs|);
    EmptyStyle();
    ScannedStyles(line, "");
    if NoClash(glyphs, none) {
      ScanRendered(glyphs, none, "");
    } else {
      ClashShows(glyphs, none, "");
      ScanSeesStripped(Render(glyphs, none, ""), "");
    }
  }

  /** Every ESC of the line is followed by `[`. */
  predicate EveryEscStartsCsi(line: string) {
    forall i :: 0 <= i < |line| && line[i] == ESC ==> i + 1 < |line| && line[i + 1] == '['
  }

  /** Such a line shows no ESC. */
  lemma {:induction false} NoEscShown(line: string)
    requires EveryEscStartsCsi(line)
    ensures ESC !in StripAnsi(line)
    decreases |line|
  {
    if line != "" {
      hide CsiOf;
      var n := if StartsCsi(line) then |CsiOf(line)| else 1;
      assert forall i :: 0 <= i < |line| - n ==> line[n..][i] == line[i + n];
      NoEscShown(line[n..]);
    }
  }

  lemma {:induction false} NoEscNoClash(glyphs: seq<Glyph>, selected: seq<bool>)
    requires |selected| == |glyphs| && forall g :: g in glyphs ==> g.ch != ESC
    ensures NoClash(glyphs, selected)
  {
    if glyphs != [] {
      assert glyphs[0] in glyphs && forall g :: g in glyphs[1..] ==> g in glyphs;
      NoEscNoClash(glyphs[1..], selected[1..]);
    }
  }

  /** A line that shows no ESC round trips, and keeps its text under any selection. */
  lemma PlainLinesRoundTrip(line: string, selected: seq<bool>)
    requires ESC !in StripAnsi(line) && |selected| == |Scan(line, "")|
    ensures StripAnsi(Render(Scan(line, ""), selected, "")) == StripAnsi(line)
    ensures var glyphs := Scan(line, ""); Scan(Render(glyphs, Unselected(|glyphs|), ""), "") == glyphs
  {
    hide StripAnsi, Render, Scan, NoClash;
    var glyphs := Scan(line, "");
    ScanSeesStripped(line, "");
    forall g | g in glyphs ensures g.ch != ESC {
      var i :| 0 <= i < |glyphs| && glyphs[i] == g;
      assert StripAnsi(line)[i] == g.ch;
      assert g.ch in StripAnsi(line);
    }
    NoEscNoClash(glyphs, selected);
    NoEscNoClash(glyphs, Unselected(|glyphs|));
    HighlightKeepsTextIff(line, selected);
    RoundTripIff(line);
  }

  /** In particular the lines in which every ESC starts a control sequence. */
  lemma CsiLinesRoundTrip(line: string, selected: seq<bool>)
    requires EveryEscStartsCsi(line) && |selected| == |Scan(line, "")|
    ensures StripAnsi(Render(Scan(line, ""), selected, "")) == StripAnsi(line)
    ensures var glyphs := Scan(line, ""); Scan(Render(glyphs, Unselected(|glyphs|), ""), "") == glyphs
  {
    hide StripAnsi, Render, Scan;
    NoEscShown(line);
    PlainLinesRoundTrip(line, selected);
  }

  /** The smallest line that does not survive: it shows an ESC and, after a sequence that
      changes no style, a `[`; written next to each other the two are a control sequence. */
  lemma ClashingLine()
    ensures var line := [ESC, ESC, '[', 'm', '['];
            var glyphs := Scan(line, "");
            && glyphs == [Glyph(ESC, ""), Glyph('[', "")] && StripAnsi(line) == [ESC, '[']
            && StripAnsi(Render(glyphs, Unselected(2), "")) == ""
            && Scan(Render(glyphs, Unselected(2), ""), "") == []
  {
    var line := [ESC, ESC, '[', 'm', '['];
    assert line[1..] == SHORT_RESET + ['['];
    ScanCsi(SHORT_RESET, ['['], "");
    ScanSeesStripped(line, "");
    var glyphs := [Glyph(ESC, ""), Glyph('[', "")];
    var none := Unselected(2);
    assert glyphs[1..] == [Glyph('[', "")] && glyphs[1..][1..] == [] && none[1..][1..] == [];
    assert Render(glyphs[1..], none[1..], "") == "" + ['['] + "";
    assert Render(glyphs, none, "") == "" + [ESC] + ['['];
    assert StartsCsi([ESC, '[']) && CsiOf([ESC, '[']) == [ESC, '['];
    assert CharsOf(glyphs) == [ESC, '['];
  }

  // ---- what each control sequence does to the style

  /** A complete sequence that does not end in `m` shows nothing and leaves the style alone. */
  lemma OtherSequencesKeepStyle(q: string, t: string, style: string)
    requires IsCsi(q) && q[|q| - 1] != 'm'
    ensures Scan(q + t, style) == Scan(t, style)
  {
    ScanCsi(q, t, style);
  }

  /** A sequence that ends in `m` is added to the style, so styles accumulate in order. */
  lemma StylingAccumulates(q: string, t: string, style: string)
    requires IsStyling(q)
    ensures Scan(q + t, style) == Scan(t, style + q)
  {
    ScanCsi(q, t, style);
  }

  /** The two spellings of a reset clear it. */
  lemma ResetClears(t: string, style: string)
    ensures Scan([ESC, '[', 'm'] + t, style) == Scan(t, "")
    ensures Scan([ESC, '[', '0', 'm'] + t, style) == Scan(t, "")
  {
    ScanCsi(SHORT_RESET, t, style);
    ScanCsi(RESET, t, style);
  }

  /** A sequence that never ends takes the rest of the line with it. */
  lemma OpenSequenceShowsNothing(q: string, style: string)
    requires StartsCsi(q) && forall i :: 2 <= i < |q| ==> !IsFinal(q[i])
    ensures Scan(q, style) == []
  {
    assert forall i :: 0 <= i < |q| - 2 ==> q[2..][i] == q[i + 2];
    CsiLengthAll(q[2..]);
    assert q[|CsiOf(q)|..] == "";
  }

  /** Which characters end a sequence: those from `@` to `~`; all others belong to it. */
  lemma FinalBytes(c: char, t: string)
    ensures '@' <= c <= '~' ==> StripAnsi([ESC, '[', c] + t) == StripAnsi(t)
    ensures !('@' <= c <= '~') ==> StripAnsi([ESC, '[', c] + t) == StripAnsi([ESC, '['] + t)
  {
    var s, u := [ESC, '[', c] + t, [ESC, '['] + t;
    hide StripAnsi;
    assert s[2..] == [c] + t && u[2..] == t;
    StripOne(s);
    StripOne(u);
    CsiLengthCons(c, t);
    if '@' <= c <= '~' {
      assert s[3..] == t;
    } else {
      assert s[2 + CsiLength(s[2..])..] == t[CsiLength(t)..] == u[2 + CsiLength(u[2..])..];
    }
  }

  /** Any other character becomes a cell in the style that is active there. */
  lemma CharTakesStyle(ch: char, t: string, style: string)
    requires !StartsCsi([ch] + t)
    ensures Scan([ch] + t, style) == [Glyph(ch, style)] + Scan(t, style)
  {
    assert ([ch] + t)[1..] == t;
  }

  // ---- text that is padded and reset

  /** A control sequence starts somewhere in the text. */
  predicate HasCsi(s: string) {
    s != "" && (StartsCsi(s) || HasCsi(s[1..]))
  }

  function Spaces(n: nat): (s: string)
    ensures |s| == n && forall i :: 0 <= i < n ==> s[i] == ' '
  {
    seq(n, _ => ' ')
  }

  lemma {:induction false} StripSpaces(n: nat)
    ensures StripAnsi(Spaces(n) + RESET) == Spaces(n)
  {
    if n == 0 {
      assert Spaces(0) + RESET == RESET + "";
      StripCsi(RESET, "");
    } else {
      StripSpaces(n - 1);
      assert (Spaces(n) + RESET)[1..] == Spaces(n - 1) + RESET;
      assert Spaces(n) == [' '] + Spaces(n - 1);
    }
  }

  /** Padding and a reset do not change which characters start a control sequence. */
  lemma PaddedStep(s: string, n: nat)
    requires s != ""
    ensures StartsCsi(s + (Spaces(n) + RESET)) <==> StartsCsi(s)
    ensures (s + (Spaces(n) + RESET))[1..] == s[1..] + (Spaces(n) + RESET)
  {
    var t := Spaces(n) + RESET;
    assert t[0] != '[';
  }

  /** Text without a control sequence is shown as it is, followed by its padding. */
  lemma {:induction false} StripPadded(s: string, n: nat)
    requires !HasCsi(s)
    ensures StripAnsi(s + (Spaces(n) + RESET)) == s + Spaces(n)
  {
    if s == "" {
      StripSpaces(n);
      assert "" + (Spaces(n) + RESET) == Spaces(n) + RESET && "" + Spaces(n) == Spaces(n);
    } else {
      hide Spaces;
      PaddedStep(s, n);
      StripPadded(s[1..], n);
      Assoc([s[0]], s[1..], Spaces(n));
      assert [s[0]] + s[1..] == s;
    }
  }

  function EscCount(s: string): nat {
    if s == "" then 0 else (if s[0] == ESC then 1 else 0) + EscCount(s[1..])
  }

  lemma {:induction false} EscCountPrefix(a: string, b: string)
    requires a <= b
    ensures EscCount(a) <= EscCount(b)
  {
    if a != "" { EscCountPrefix(a[1..], b[1..]); }
  }

  lemma {:induction false} EscCountSuffix(s: string, k: nat)
    requires k <= |s|
    ensures EscCount(s[k..]) <= EscCount(s)
  {
    if k > 0 {
      EscCountSuffix(s[1..], k - 1);
      assert s[1..][k - 1..] == s[k..];
    }
  }

  lemma NoFinals(body: string, n: nat)
    requires forall i :: 0 <= i < |body| ==> !IsFinal(body[i])
    ensures forall i :: 0 <= i < |body| + n + 1 ==> !IsFinal((body + Spaces(n) + [ESC, '['])[i])
  {
    var padded := body + Spaces(n);
    assert forall i :: 0 <= i < n ==> padded[|body| + i] == Spaces(n)[i];
  }

  lemma OpenLength(body: string, n: nat)
    requires forall i :: 0 <= i < |body| ==> !IsFinal(body[i])
    ensures CsiLength(body + (Spaces(n) + RESET)) == |body| + n + 2
  {
    hide CsiLength, Spaces;
    var open := body + Spaces(n) + [ESC, '['];
    NoFinals(body, n);
    CsiLengthIs(open, |open|);
    CsiLengthInFront(open, "0m");
    Assoc(body, Spaces(n), RESET);
    Assoc(body + Spaces(n), [ESC, '['], "0m");
    assert [ESC, '['] + "0m" == RESET;
  }

  lemma {:induction false} CsiLengthInFront(s: string, t: string)
    requires s != "" && CsiLength(s) == |s| && IsFinal(s[|s| - 1])
    ensures CsiLength(s + t) == |s|
  {
    assert forall i :: 0 <= i < |s| ==> (s + t)[i] == s[i];
    CsiLengthIs(s + t, |s|);
  }

  lemma PlainEnd()
    ensures StripAnsi("0m") == "0m" && EscCount("0m") == 0
  {
    assert "0m"[1..] == "m" && "m"[1..] == "";
  }

  lemma DropFront(a: string, b: string, c: string)
    ensures (a + (b + c))[|a| + |b|..] == c
  {
  }

  /** A sequence that the text leaves open goes on through the padding up to the bracket of the
      reset, whose parameters are then shown. */
  lemma OpenSequence(s: string, n: nat)
    requires StartsCsi(s) && forall i :: 2 <= i < |s| ==> !IsFinal(s[i])
    ensures StripAnsi(s + (Spaces(n) + RESET)) == "0m"
  {
    hide CsiLength, IsFinal, Spaces, StripAnsi;
    var body, padded := s[2..], Spaces(n) + [ESC, '['];
    OpenLength(body, n);
    assert Spaces(n) + RESET == padded + "0m" by {
      Assoc(Spaces(n), [ESC, '['], "0m");
      assert [ESC, '['] + "0m" == RESET;
    }
    assert (s + (padded + "0m"))[2..] == body + (padded + "0m");
    DropFront(s, padded, "0m");
    StripOne(s + (padded + "0m"));
    PlainEnd();
  }

  /** Every control sequence of the text costs an ESC, and padding and reset show none. */
  lemma {:induction false} StripLosesEsc(s: string, n: nat)
    ensures EscCount(StripAnsi(s + (Spaces(n) + RESET))) <= EscCount(s)
    ensures HasCsi(s) ==> EscCount(StripAnsi(s + (Spaces(n) + RESET))) < EscCount(s)
    decreases |s|
  {
    var tail := Spaces(n) + RESET;
    if s == "" {
      StripSpaces(n);
      assert "" + tail == tail;
      SpacesHaveNoEsc(n);
    } else if !StartsCsi(s) {
      hide Spaces;
      PaddedStep(s, n);
      StripLosesEsc(s[1..], n);
      var rest := StripAnsi(s[1..] + tail);
      assert ([s[0]] + rest)[1..] == rest;
    } else {
      StripLosesCsi(s, n);
    }
  }

  lemma StripLosesCsi(s: string, n: nat)
    requires StartsCsi(s)
    ensures EscCount(StripAnsi(s + (Spaces(n) + RESET))) < EscCount(s)
    decreases |s|, 0
  {
    hide StripAnsi, Spaces, CsiOf;
    var q := CsiOf(s);
    if IsCsi(q) {
      var rest, tail := s[|q|..], Spaces(n) + RESET;
      Assoc(q, rest, tail);
      assert s == q + rest;
      StripCsi(q, rest + tail);
      StripLosesEsc(rest, n);
      assert s[1..][|q| - 1..] == rest;
      EscCountSuffix(s[1..], |q| - 1);
    } else {
      OpenCsi(s);
      OpenSequence(s, n);
      PlainEnd();
    }
  }

  lemma OpenCsi(s: string)
    requires StartsCsi(s) && !IsCsi(CsiOf(s))
    ensures forall i :: 2 <= i < |s| ==> !IsFinal(s[i])
  {
    assert forall i :: 2 <= i < |s| ==> s[i] == s[2..][i - 2];
  }

  lemma {:induction false} SpacesHaveNoEsc(n: nat)
    ensures EscCount(Spaces(n)) == 0
  {
    if n > 0 {
      assert Spaces(n)[1..] == Spaces(n - 1);
      SpacesHaveNoEsc(n - 1);
    }
  }

  /** Padded and reset, text shows all of itself exactly when it holds no control sequence. */
  lemma ShownInFrontIff(s: string, n: nat)
    ensures s <= StripAnsi(s + (Spaces(n) + RESET)) <==> !HasCsi(s)
  {
    hide StripAnsi, HasCsi, Spaces;
    if HasCsi(s) {
      StripLosesEsc(s, n);
      if s <= StripAnsi(s + (Spaces(n) + RESET)) {
        EscCountPrefix(s, StripAnsi(s + (Spaces(n) + RESET)));
      }
    } else {
      StripPadded(s, n);
    }
  }

  predicate AllSpaces(s: string) {
    forall i :: 0 <= i < |s| ==> s[i] == ' '
  }

  lemma {:induction false} SpacesAhead(s: string, n: nat, i: nat)
    requires s <= "  " + (s + Spaces(n)) && i < |s|
    ensures s[i] == ' '
  {
    assert s[i] == ("  " + (s + Spaces(n)))[i];
    if i >= 2 { SpacesAhead(s, n, i - 2); }
  }

  lemma {:induction false} SpacesHaveNoCsi(s: string)
    requires AllSpaces(s)
    ensures !HasCsi(s)
  {
    if s != "" { SpacesHaveNoCsi(s[1..]); }
  }

  lemma StripIndent(s: string)
    ensures StripAnsi("  " + s) == "  " + StripAnsi(s)
    ensures EscCount("  " + StripAnsi(s)) == EscCount(StripAnsi(s))
  {
    hide StripAnsi;
    StripPlain(' ', " " + s);
    StripPlain(' ', s);
    assert "  " + s == " " + (" " + s);
    var t := StripAnsi(s);
    assert ("  " + t)[1..] == " " + t && (" " + t)[1..] == t;
  }

  /** Behind two spaces, text stands in its own place only when it is blank. */
  lemma ShownBehindIndentIff(s: string, n: nat)
    ensures s <= StripAnsi("  " + (s + (Spaces(n) + RESET))) <==> AllSpaces(s)
    ensures !HasCsi(s) ==> StripAnsi("  " + (s + (Spaces(n) + RESET))) == "  " + (s + Spaces(n))
  {
    hide StripAnsi, HasCsi, Spaces, EscCount;
    var shown := StripAnsi(s + (Spaces(n) + RESET));
    StripIndent(s + (Spaces(n) + RESET));
    if HasCsi(s) {
      StripLosesEsc(s, n);
      if s <= "  " + shown {
        EscCountPrefix(s, "  " + shown);
      }
      if AllSpaces(s) {
        SpacesHaveNoCsi(s);
      }
    } else {
      StripPadded(s, n);
      if s <= "  " + shown {
        forall i | 0 <= i < |s| ensures s[i] == ' ' {
          SpacesAhead(s, n, i);
        }
      }
    }
  }
}
