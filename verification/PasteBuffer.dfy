/** The concrete state of the input box: a character buffer, a cursor index and the list of
    spans that hide long pastes, with the operations of the key loop as functions. */
module PasteBuffer {
  import opened Text
  import opened AtomEditor

  datatype Span = Span(start: nat, end: nat, placeholder: string, content: string)

  // ---- library calls on buffers and span lists

  /** `char_to_byte_index`: indices past the end mean the end. */
  function ClampIndex(s: string, i: nat): (k: nat)
    ensures k <= |s|
    ensures i <= |s| ==> k == i
  {
    if i <= |s| then i else |s|
  }

  function InsertStr(s: string, at: nat, t: string): string {
    s[..ClampIndex(s, at)] + t + s[ClampIndex(s, at)..]
  }

  /** `replace_range(from..to, t)` for `from <= to`. */
  function ReplaceRange(s: string, from: nat, to: nat, t: string): string
    requires from <= to
  {
    s[..ClampIndex(s, from)] + t + s[ClampIndex(s, to)..]
  }

  /** `iter().position(p)`; with indexing also `iter().find(p)`. */
  function Position(spans: seq<Span>, p: Span -> bool): (r: Option<nat>)
    ensures r.Some? ==> r.value < |spans| && p(spans[r.value])
    ensures r.Some? ==> forall j :: 0 <= j < r.value ==> !p(spans[j])
    ensures r.None? ==> forall j :: 0 <= j < |spans| ==> !p(spans[j])
  {
    if spans == [] then None
    else if p(spans[0]) then Some(0)
    else
      match Position(spans[1..], p)
      case None => None
      case Some(i) => Some(i + 1)
  }

  /** Places `s` in a list sorted by start, after the spans with an equal start. */
  function InsertByStart(sorted: seq<Span>, s: Span): seq<Span> {
    if sorted == [] || sorted[0].start > s.start then [s] + sorted
    else [sorted[0]] + InsertByStart(sorted[1..], s)
  }

  /** `sort_by_key(|span| span.start)`, which is stable. */
  function SortByStart(spans: seq<Span>): seq<Span> {
    if spans == [] then [] else InsertByStart(SortByStart(spans[..|spans| - 1]), spans[|spans| - 1])
  }

  // ---- cursor helpers

  function CursorAfterPasteSpan(cursor: nat, spans: seq<Span>): nat {
    match Position(spans, (s: Span) => s.start < cursor < s.end)
    case None => cursor
    case Some(i) => spans[i].end
  }

  function CursorLeftOverPastes(cursor: nat, spans: seq<Span>): nat {
    var next := SatSub(cursor, 1);
    match Position(spans, (s: Span) => s.start <= next < s.end)
    case None => next
    case Some(i) => spans[i].start
  }

  function CursorRightOverPastes(input: string, cursor: nat, spans: seq<Span>): nat {
    var next := Min(cursor + 1, |input|);
    match Position(spans, (s: Span) => s.start < next <= s.end)
    case None => next
    case Some(i) => spans[i].end
  }

  // ---- span shifting

  function ShiftedForInsert(s: Span, at: nat, count: nat): Span {
    if s.start >= at then s.(start := s.start + count, end := s.end + count) else s
  }

  function ShiftForInsert(spans: seq<Span>, at: nat, count: nat): (r: seq<Span>)
    ensures |r| == |spans|
    ensures forall i :: 0 <= i < |spans| ==> r[i] == ShiftedForInsert(spans[i], at, count)
  {
    seq(|spans|, i requires 0 <= i < |spans| => ShiftedForInsert(spans[i], at, count))
  }

  function ShiftedForDelete(s: Span, from: nat, to: nat): Option<Span>
    requires from <= to
  {
    if s.end <= from then Some(s)
    else if s.start >= to then Some(s.(start := SatSub(s.start, to - from), end := SatSub(s.end, to - from)))
    else None
  }

  function ShiftForDelete(spans: seq<Span>, from: nat, to: nat): seq<Span>
    requires from <= to
  {
    if spans == [] then []
    else
      (match ShiftedForDelete(spans[0], from, to) case None => [] case Some(s) => [s])
      + ShiftForDelete(spans[1..], from, to)
  }

  function ShiftedForRemoval(s: Span, removed: Span): Span {
    if s.start >= removed.end then
      var count := SatSub(removed.end, removed.start);
      s.(start := SatSub(s.start, count), end := SatSub(s.end, count))
    else s
  }

  function ShiftForRemoval(spans: seq<Span>, removed: Span): (r: seq<Span>)
    ensures |r| == |spans|
    ensures forall i :: 0 <= i < |spans| ==> r[i] == ShiftedForRemoval(spans[i], removed)
  {
    seq(|spans|, i requires 0 <= i < |spans| => ShiftedForRemoval(spans[i], removed))
  }

  /** The span covers its placeholder in the buffer. */
  predicate Covers(s: Span, input: string) {
    && s.start < s.end <= |input|
    && input[s.start..s.end] == s.placeholder == Placeholder(s.content)
    && s.content != ""
  }

  predicate InSome(spans: seq<Span>, cursor: nat) {
    exists j :: 0 <= j < |spans| && spans[j].start < cursor < spans[j].end
  }

  datatype Buffer = Buffer(input: string, cursor: nat, spans: seq<Span>) {

    function InsertChar(ch: char): Buffer {
      var at := CursorAfterPasteSpan(cursor, spans);
      Buffer(InsertStr(input, at, [ch]), at + 1, ShiftForInsert(spans, at, 1))
    }

    function InsertText(text: string): Buffer {
      if text == "" then this
      else
        var at := CursorAfterPasteSpan(cursor, spans);
        var normalized := NormalizePastedText(text);
        Buffer(InsertStr(input, at, normalized), at + |normalized|, ShiftForInsert(spans, at, |normalized|))
    }

    function InsertPaste(text: string): Buffer {
      if text == "" then this
      else
        var normalized := NormalizePastedText(text);
        if !ShouldCollapsePaste(normalized) then InsertText(normalized)
        else
          var at := CursorAfterPasteSpan(cursor, spans);
          var placeholder := Placeholder(normalized);
          var span := Span(at, at + |placeholder|, placeholder, normalized);
          Buffer(InsertStr(input, at, placeholder), at + |placeholder|,
                 SortByStart(ShiftForInsert(spans, at, |placeholder|) + [span]))
    }

    function RemoveSpan(i: nat): Buffer
      requires i < |spans| && spans[i].start <= spans[i].end
    {
      Buffer(ReplaceRange(input, spans[i].start, spans[i].end, ""), spans[i].start,
             ShiftForRemoval(spans[..i] + spans[i + 1..], spans[i]))
    }

    /** Every span starts no later than it ends. */
    predicate Ordered() {
      forall i :: 0 <= i < |spans| ==> spans[i].start <= spans[i].end
    }

    function SpanToBackspace(): Option<nat> {
      Position(spans, (s: Span) => (cursor > s.start && cursor <= s.end) || cursor == s.end)
    }

    function Backspaced(): Buffer
      requires Ordered()
    {
      match SpanToBackspace()
      case Some(i) => RemoveSpan(i)
      case None =>
        if cursor == 0 then this
        else Buffer(ReplaceRange(input, cursor - 1, cursor, ""), cursor - 1, ShiftForDelete(spans, cursor - 1, cursor))
    }

    function SpanToDelete(): Option<nat> {
      Position(spans, (s: Span) => s.start <= cursor < s.end)
    }

    /** The caller's cursor is passed by value, so it does not move. */
    function Deleted(): Buffer
      requires Ordered()
    {
      match SpanToDelete()
      case Some(i) => RemoveSpan(i).(cursor := cursor)
      case None =>
        if cursor >= |input| then this
        else Buffer(ReplaceRange(input, cursor, cursor + 1, ""), cursor, ShiftForDelete(spans, cursor, cursor + 1))
    }

    function Step(key: Key): Buffer
      requires Ordered()
    {
      match key
      case Type(ch) => InsertChar(ch)
      case PasteText(text) => InsertPaste(text)
      case Backspace => Backspaced()
      case Delete => Deleted()
      case Left => this.(cursor := CursorLeftOverPastes(cursor, spans))
      case Right => this.(cursor := CursorRightOverPastes(input, cursor, spans))
      case Home => this.(cursor := 0)
      case End => this.(cursor := |input|)
      case Jump(index) => this.(cursor := index)
    }

    // ---- the invariant of the buffer

    predicate SpansOk() {
      && (forall i :: 0 <= i < |spans| ==> Covers(spans[i], input))
      && (forall i, j :: 0 <= i < j < |spans| ==> spans[i].end <= spans[j].start)
    }

    predicate Valid() {
      SpansOk() && cursor <= |input|
    }

    predicate InsideSpan() {
      InSome(spans, cursor)
    }
  }

  // ---- representation of a plain editor

  function OwnSpans(a: Atom, at: nat): seq<Span> {
    match a
    case Char(_) => []
    case Paste(content) => [Span(at, at + |Shown(a)|, Placeholder(content), content)]
  }

  /** The spans of a line of atoms whose first atom is shown at index `at`. */
  function SpansOf(atoms: seq<Atom>, at: nat): seq<Span> {
    if atoms == [] then [] else OwnSpans(atoms[0], at) + SpansOf(atoms[1..], at + |Shown(atoms[0])|)
  }

  /** The buffer that shows a plain editor. */
  function BufferOf(p: Plain): Buffer {
    var n := |ShownAll(p.before)|;
    Buffer(ShownAll(p.before) + ShownAll(p.after), n + p.offset, SpansOf(p.before, 0) + SpansOf(p.after, n))
  }

  predicate Represents(b: Buffer, p: Plain) {
    p.Ok() && b == BufferOf(p)
  }

  lemma {:induction false} SpansOfAppend(a: seq<Atom>, b: seq<Atom>, at: nat)
    ensures SpansOf(a + b, at) == SpansOf(a, at) + SpansOf(b, at + |ShownAll(a)|)
  {
    hide OwnSpans, Shown;
    if a == [] {
      assert a + b == b;
    } else {
      var w := |Shown(a[0])|;
      assert (a + b)[1..] == a[1..] + b;
      SpansOfAppend(a[1..], b, at + w);
      assert SpansOf(a + b, at) == OwnSpans(a[0], at) + SpansOf(a[1..] + b, at + w);
      assert SpansOf(a, at) == OwnSpans(a[0], at) + SpansOf(a[1..], at + w);
      assert |ShownAll(a)| == w + |ShownAll(a[1..])|;
    }
  }

  lemma {:induction false} SpansOfBounds(a: seq<Atom>, at: nat)
    ensures forall i :: 0 <= i < |SpansOf(a, at)| ==> at <= SpansOf(a, at)[i].start < SpansOf(a, at)[i].end <= at + |ShownAll(a)|
    ensures forall i, j :: 0 <= i < j < |SpansOf(a, at)| ==> SpansOf(a, at)[i].end <= SpansOf(a, at)[j].start
  {
    hide Placeholder;
    if a != [] {
      SpansOfBounds(a[1..], at + |Shown(a[0])|);
    }
  }

  predicate SameMoved(s: Span, t: Span, from: nat, to: nat) {
    t.start - to == s.start - from && t.end - to == s.end - from && t.placeholder == s.placeholder && t.content == s.content
  }

  predicate AllMoved(a: seq<Span>, b: seq<Span>, from: nat, to: nat) {
    |a| == |b| && forall i :: 0 <= i < |a| ==> SameMoved(a[i], b[i], from, to)
  }

  lemma AllMovedAppend(a: seq<Span>, b: seq<Span>, c: seq<Span>, d: seq<Span>, from: nat, to: nat)
    requires AllMoved(a, b, from, to)
    requires AllMoved(c, d, from, to)
    ensures AllMoved(a + c, b + d, from, to)
  {
    hide SameMoved;
  }

  lemma AllMovedElsewhere(a: seq<Span>, b: seq<Span>, from: nat, to: nat, w: nat)
    requires AllMoved(a, b, from + w, to + w)
    ensures AllMoved(a, b, from, to)
  {
  }

  lemma OwnSpansShift(a: Atom, at: nat, to: nat)
    ensures AllMoved(OwnSpans(a, at), OwnSpans(a, to), at, to)
  {
    hide Shown;
  }

  lemma {:induction false} SpansOfShift(a: seq<Atom>, at: nat, to: nat)
    ensures AllMoved(SpansOf(a, at), SpansOf(a, to), at, to)
  {
    hide Shown, OwnSpans, AllMoved;
    if a != [] {
      var w := |Shown(a[0])|;
      SpansOfShift(a[1..], at + w, to + w);
      AllMovedElsewhere(SpansOf(a[1..], at + w), SpansOf(a[1..], to + w), at, to, w);
      OwnSpansShift(a[0], at, to);
      AllMovedAppend(OwnSpans(a[0], at), OwnSpans(a[0], to), SpansOf(a[1..], at + w), SpansOf(a[1..], to + w), at, to);
    } else {
      NothingMoved(at, to);
    }
  }

  lemma NothingMoved(at: nat, to: nat)
    ensures AllMoved(SpansOf([], at), SpansOf([], to), at, to)
  {
  }

  lemma {:induction false} SpansOfChars(text: string, at: nat)
    ensures SpansOf(Chars(text), at) == []
  {
    if text != "" {
      assert Chars(text)[1..] == Chars(text[1..]);
      SpansOfChars(text[1..], at + 1);
    }
  }

  lemma Single(a: Atom, at: nat)
    ensures ShownAll([a]) == Shown(a) && SpansOf([a], at) == OwnSpans(a, at)
  {
    hide Shown, OwnSpans;
    assert [a][1..] == [];
  }

  lemma CursorOf(p: Plain)
    ensures BufferOf(p).cursor == |ShownAll(p.before)| + p.offset
  {
  }

  lemma BufferOfAtoms(p: Plain)
    ensures BufferOf(p).input == ShownAll(p.Atoms()) && BufferOf(p).spans == SpansOf(p.Atoms(), 0)
  {
    hide ShownAll, SpansOf;
    ShownAllAppend(p.before, p.after);
    SpansOfAppend(p.before, p.after, 0);
  }

  lemma CutMiddle(a: string, b: string, c: string)
    ensures ReplaceRange(a + b + c, |a|, |a| + |b|, "") == a + c
  {
    assert (a + b + c)[..|a|] == a;
    assert (a + b + c)[|a| + |b|..] == c;
  }

  predicate SpansWithin(spans: seq<Span>, from: nat, to: nat) {
    forall i :: 0 <= i < |spans| ==> from <= spans[i].start < spans[i].end <= to
  }

  function FocusedInput(left: seq<Atom>, a: Atom, right: seq<Atom>): string {
    ShownAll(left) + Shown(a) + ShownAll(right)
  }

  function FocusedSpans(left: seq<Atom>, a: Atom, right: seq<Atom>): seq<Span> {
    SpansOf(left, 0) + OwnSpans(a, |ShownAll(left)|) + SpansOf(right, |ShownAll(left)| + |Shown(a)|)
  }

  lemma FocusAfter(left: seq<Atom>, a: Atom, right: seq<Atom>)
    ensures BufferOf(Plain(left, [a] + right, 0))
         == Buffer(FocusedInput(left, a, right), |ShownAll(left)|, FocusedSpans(left, a, right))
  {
    hide ShownAll, SpansOf, Shown, OwnSpans;
    var n := |ShownAll(left)|;
    Single(a, n);
    ShownAllAppend([a], right);
    SpansOfAppend([a], right, n);
    Assoc(ShownAll(left), Shown(a), ShownAll(right));
    Assoc(SpansOf(left, 0), OwnSpans(a, n), SpansOf(right, n + |Shown(a)|));
  }

  lemma FocusBefore(left: seq<Atom>, a: Atom, right: seq<Atom>)
    ensures BufferOf(Plain(left + [a], right, 0))
         == Buffer(FocusedInput(left, a, right), |ShownAll(left)| + |Shown(a)|, FocusedSpans(left, a, right))
  {
    hide ShownAll, SpansOf, Shown, OwnSpans;
    Single(a, |ShownAll(left)|);
    ShownAllAppend(left, [a]);
    SpansOfAppend(left, [a], 0);
  }

  /** The buffer around one atom `a`, which the cursor may have on either side. */
  lemma Focus(left: seq<Atom>, a: Atom, right: seq<Atom>)
    ensures var n, m := |ShownAll(left)|, |ShownAll(left)| + |Shown(a)|;
            var shown, spans := FocusedInput(left, a, right), FocusedSpans(left, a, right);
            && BufferOf(Plain(left, [a] + right, 0)) == Buffer(shown, n, spans)
            && BufferOf(Plain(left + [a], right, 0)) == Buffer(shown, m, spans)
            && SpansWithin(SpansOf(left, 0), 0, n)
            && SpansWithin(SpansOf(right, m), m, |shown|)
  {
    hide ShownAll, SpansOf, Shown, OwnSpans, BufferOf;
    FocusAfter(left, a, right);
    FocusBefore(left, a, right);
    SpansOfBounds(left, 0);
    SpansOfBounds(right, |ShownAll(left)| + |Shown(a)|);
  }

  // ---- inserting

  lemma SnapRefines(b: Buffer, p: Plain)
    requires Represents(b, p)
    ensures Represents(b.(cursor := CursorAfterPasteSpan(b.cursor, b.spans)), p.Snapped())
    ensures p.offset == 0 ==> CursorAfterPasteSpan(b.cursor, b.spans) == b.cursor
  {
    hide ShownAll, SpansOf, Placeholder;
    if p.offset == 0 {
      SpansOfBounds(p.before, 0);
      SpansOfBounds(p.after, b.cursor);
    } else {
      var a, right := p.after[0], p.after[1..];
      assert p.after == [a] + right;
      Focus(p.before, a, right);
      assert b.spans[|SpansOf(p.before, 0)|] == OwnSpans(a, |ShownAll(p.before)|)[0];
    }
  }

  lemma InsertAtomsRefines(b: Buffer, p: Plain, atoms: seq<Atom>)
    requires Represents(b, p) && p.offset == 0 && NonEmptyPastes(atoms)
    ensures var n, shown := b.cursor, ShownAll(atoms);
            var moved := ShiftForInsert(SpansOf(p.after, n), n, |shown|);
            && ShiftForInsert(b.spans, n, |shown|) == SpansOf(p.before, 0) + moved
            && Represents(
                 Buffer(InsertStr(b.input, n, shown), n + |shown|, SpansOf(p.before, 0) + SpansOf(atoms, n) + moved),
                 p.Insert(atoms))
  {
    hide ShownAll, SpansOf;
    var n, shown := b.cursor, ShownAll(atoms);
    ShownAllAppend(p.before, atoms);
    SpansOfAppend(p.before, atoms, 0);
    SpansOfBounds(p.before, 0);
    SpansOfBounds(p.after, n);
    SpansOfShift(p.after, n, n + |shown|);
    assert ShiftForInsert(SpansOf(p.after, n), n, |shown|) == SpansOf(p.after, n + |shown|);
  }

  lemma InsertCharRefines(b: Buffer, p: Plain, ch: char)
    requires Represents(b, p)
    ensures Represents(b.InsertChar(ch), p.Insert([Char(ch)]))
  {
    hide ShownAll, SpansOf, BufferOf;
    SnapRefines(b, p);
    var at := CursorAfterPasteSpan(b.cursor, b.spans);
    Single(Char(ch), at);
    InsertAtomsRefines(b.(cursor := at), p.Snapped(), [Char(ch)]);
  }

  lemma CharsHaveNoPaste(text: string)
    ensures NonEmptyPastes(Chars(text))
  {
  }

  lemma InsertCharsRefines(b: Buffer, p: Plain, text: string)
    requires Represents(b, p) && p.offset == 0
    ensures Represents(Buffer(InsertStr(b.input, b.cursor, text), b.cursor + |text|, ShiftForInsert(b.spans, b.cursor, |text|)),
                       p.Insert(Chars(text)))
  {
    hide ShownAll, SpansOf, BufferOf, Chars;
    CharsHaveNoPaste(text);
    ShownAllChars(text);
    SpansOfChars(text, b.cursor);
    InsertAtomsRefines(b, p, Chars(text));
    assert SpansOf(p.before, 0) + [] == SpansOf(p.before, 0);
  }

  lemma InsertTextRefines(b: Buffer, p: Plain, text: string)
    requires Represents(b, p) && text != ""
    ensures Represents(b.InsertText(text), p.Insert(Chars(NormalizePastedText(text))))
  {
    hide BufferOf, NormalizePastedText, Chars;
    SnapRefines(b, p);
    InsertCharsRefines(b.(cursor := CursorAfterPasteSpan(b.cursor, b.spans)), p.Snapped(), NormalizePastedText(text));
  }

  lemma {:induction false} InsertByStartBetween(a: seq<Span>, c: seq<Span>, s: Span)
    requires forall i :: 0 <= i < |a| ==> a[i].start < s.start
    requires forall i :: 0 <= i < |c| ==> s.start < c[i].start
    ensures InsertByStart(a + c, s) == a + [s] + c
  {
    if a == [] {
      assert a + c == c;
    } else {
      assert (a + c)[1..] == a[1..] + c;
      InsertByStartBetween(a[1..], c, s);
    }
  }

  lemma {:induction false} SortedStays(spans: seq<Span>)
    requires forall i, j :: 0 <= i < j < |spans| ==> spans[i].start < spans[j].start
    ensures SortByStart(spans) == spans
  {
    if spans != [] {
      var n := |spans| - 1;
      SortedStays(spans[..n]);
      InsertByStartBetween(spans[..n], [], spans[n]);
      assert spans[..n] + [] == spans[..n];
      assert spans[..n] + [spans[n]] + [] == spans;
    }
  }

  lemma SortPlacesLast(a: seq<Span>, c: seq<Span>, s: Span)
    requires forall i, j :: 0 <= i < j < |a + c| ==> (a + c)[i].start < (a + c)[j].start
    requires forall i :: 0 <= i < |a| ==> a[i].start < s.start
    requires forall i :: 0 <= i < |c| ==> s.start < c[i].start
    ensures SortByStart(a + c + [s]) == a + [s] + c
  {
    SortedStays(a + c);
    assert (a + c + [s])[..|a + c|] == a + c;
    InsertByStartBetween(a, c, s);
  }

  lemma InsertCollapsedRefines(b: Buffer, p: Plain, content: string)
    requires Represents(b, p) && p.offset == 0 && content != ""
    ensures var n, shown := b.cursor, Placeholder(content);
            Represents(
              Buffer(InsertStr(b.input, n, shown), n + |shown|,
                     SortByStart(ShiftForInsert(b.spans, n, |shown|) + [Span(n, n + |shown|, shown, content)])),
              p.Insert([Paste(content)]))
  {
    hide ShownAll, SpansOf, Placeholder, SortByStart;
    var n, shown := b.cursor, Placeholder(content);
    Single(Paste(content), n);
    InsertAtomsRefines(b, p, [Paste(content)]);
    SpansOfBounds(p.before, 0);
    SpansOfBounds(p.after, n);
    var before, after := SpansOf(p.before, 0), ShiftForInsert(SpansOf(p.after, n), n, |shown|);
    assert forall i, j :: 0 <= i < j < |after| ==> after[i].start < after[j].start;
    SortPlacesLast(before, after, Span(n, n + |shown|, shown, content));
  }

  lemma InsertPasteRefines(b: Buffer, p: Plain, text: string)
    requires Represents(b, p) && text != ""
    ensures Represents(b.InsertPaste(text), p.Insert(PasteAtoms(text)))
  {
    hide BufferOf, NormalizePastedText, ShouldCollapsePaste, Placeholder;
    var normalized := NormalizePastedText(text);
    NormalizeIsClean(text);
    NormalizeKeepsNonEmpty(text);
    if !ShouldCollapsePaste(normalized) {
      InsertTextRefines(b, p, normalized);
    } else {
      SnapRefines(b, p);
      InsertCollapsedRefines(b.(cursor := CursorAfterPasteSpan(b.cursor, b.spans)), p.Snapped(), normalized);
    }
  }

  // ---- removing

  lemma RemovalShiftsRest(left: seq<Atom>, removed: Span, right: seq<Atom>)
    requires removed.start == |ShownAll(left)| <= removed.end
    ensures ShiftForRemoval(SpansOf(left, 0) + SpansOf(right, removed.end), removed)
         == SpansOf(left, 0) + SpansOf(right, removed.start)
  {
    hide ShownAll, SpansOf;
    SpansOfBounds(left, 0);
    SpansOfBounds(right, removed.end);
    SpansOfShift(right, removed.end, removed.start);
  }

  lemma RemovePasteRefines(b: Buffer, left: seq<Atom>, content: string, right: seq<Atom>) returns (i: nat)
    requires b.input == BufferOf(Plain(left, [Paste(content)] + right, 0)).input
    requires b.spans == BufferOf(Plain(left, [Paste(content)] + right, 0)).spans
    ensures i == |SpansOf(left, 0)| < |b.spans|
    ensures b.spans[i] == Span(|ShownAll(left)|, |ShownAll(left)| + |Placeholder(content)|, Placeholder(content), content)
    ensures forall j :: 0 <= j < i ==> b.spans[j].start < b.spans[j].end <= b.spans[i].start
    ensures forall j :: i < j < |b.spans| ==> b.spans[i].end <= b.spans[j].start < b.spans[j].end
    ensures b.RemoveSpan(i) == BufferOf(Plain(left, right, 0))
  {
    hide Placeholder, ShownAll, SpansOf, ShiftForRemoval, ReplaceRange;
    Focus(left, Paste(content), right);
    i := |SpansOf(left, 0)|;
    var m := |ShownAll(left)| + |Placeholder(content)|;
    assert b.spans[..i] + b.spans[i + 1..] == SpansOf(left, 0) + SpansOf(right, m);
    RemovalShiftsRest(left, b.spans[i], right);
    CutMiddle(ShownAll(left), Placeholder(content), ShownAll(right));
  }

  lemma {:induction false} ShiftForDeleteAppend(a: seq<Span>, c: seq<Span>, from: nat, to: nat)
    requires from <= to
    ensures ShiftForDelete(a + c, from, to) == ShiftForDelete(a, from, to) + ShiftForDelete(c, from, to)
  {
    if a == [] {
      assert a + c == c;
    } else {
      assert (a + c)[1..] == a[1..] + c;
      ShiftForDeleteAppend(a[1..], c, from, to);
    }
  }

  lemma ShiftForDeleteSnoc(a: seq<Span>, s: Span, from: nat, to: nat)
    requires from <= to
    ensures ShiftForDelete(a + [s], from, to)
         == ShiftForDelete(a, from, to) + match ShiftedForDelete(s, from, to) case None => [] case Some(t) => [t]
  {
    ShiftForDeleteAppend(a, [s], from, to);
    assert [s][1..] == [];
  }

  lemma {:induction false} ShiftForDeleteKeeps(a: seq<Span>, from: nat, to: nat)
    requires from <= to
    requires forall i :: 0 <= i < |a| ==> a[i].end <= from
    ensures ShiftForDelete(a, from, to) == a
  {
    if a != [] { ShiftForDeleteKeeps(a[1..], from, to); }
  }

  lemma {:induction false} ShiftForDeleteMoves(a: seq<Span>, moved: seq<Span>, from: nat)
    requires |a| == |moved|
    requires forall i :: 0 <= i < |a| ==> from < a[i].start < a[i].end && SameMoved(a[i], moved[i], 1, 0)
    ensures ShiftForDelete(a, from, from + 1) == moved
  {
    if a != [] {
      ShiftForDeleteMoves(a[1..], moved[1..], from);
    }
  }

  lemma RemoveCharRefines(b: Buffer, left: seq<Atom>, ch: char, right: seq<Atom>)
    requires b.input == BufferOf(Plain(left, [Char(ch)] + right, 0)).input
    requires b.spans == BufferOf(Plain(left, [Char(ch)] + right, 0)).spans
    ensures var n := |ShownAll(left)|;
            && Buffer(ReplaceRange(b.input, n, n + 1, ""), n, ShiftForDelete(b.spans, n, n + 1)) == BufferOf(Plain(left, right, 0))
            && |b.input| > n
            && forall j :: 0 <= j < |b.spans| ==> b.spans[j].start < b.spans[j].end && (b.spans[j].end <= n || n + 1 <= b.spans[j].start)
  {
    hide ShownAll, SpansOf, ShiftForDelete;
    Focus(left, Char(ch), right);
    var n := |ShownAll(left)|;
    SpansOfShift(right, n + 1, n);
    ShiftForDeleteAppend(SpansOf(left, 0), SpansOf(right, n + 1), n, n + 1);
    ShiftForDeleteKeeps(SpansOf(left, 0), n, n + 1);
    ShiftForDeleteMoves(SpansOf(right, n + 1), SpansOf(right, n), n);
    CutMiddle(ShownAll(left), [ch], ShownAll(right));
    assert SpansOf(left, 0) + [] == SpansOf(left, 0);
  }

  lemma RepresentsOrdered(b: Buffer, p: Plain)
    requires Represents(b, p)
    ensures b.Ordered()
  {
    hide ShownAll, SpansOf;
    SpansOfBounds(p.before, 0);
    SpansOfBounds(p.after, |ShownAll(p.before)|);
  }

  lemma BackspacePasteRefines(b: Buffer, left: seq<Atom>, content: string, right: seq<Atom>)
    requires b.input == BufferOf(Plain(left, [Paste(content)] + right, 0)).input
    requires b.spans == BufferOf(Plain(left, [Paste(content)] + right, 0)).spans
    requires |ShownAll(left)| < b.cursor <= |ShownAll(left)| + |Placeholder(content)|
    requires b.Ordered()
    ensures b.SpanToBackspace().Some? && b.Backspaced() == BufferOf(Plain(left, right, 0))
  {
    hide ShownAll, SpansOf, Placeholder, BufferOf;
    var i := RemovePasteRefines(b, left, content, right);
    assert b.SpanToBackspace() == Some(i);
  }

  lemma BackspaceCharRefines(b: Buffer, left: seq<Atom>, ch: char, right: seq<Atom>)
    requires b == BufferOf(Plain(left + [Char(ch)], right, 0))
    requires b.Ordered()
    ensures b.SpanToBackspace().None? && b.cursor > 0 && b.Backspaced() == BufferOf(Plain(left, right, 0))
  {
    hide ShownAll, SpansOf, BufferOf, ShiftForDelete;
    Focus(left, Char(ch), right);
    RemoveCharRefines(b, left, ch, right);
    assert b.SpanToBackspace() == None;
  }

  lemma BackspaceRefines(b: Buffer, p: Plain)
    requires Represents(b, p)
    ensures b.Ordered()
    ensures Represents(b.Backspaced(), p.Backspace())
    ensures (b.SpanToBackspace().None? && b.cursor == 0) <==> p.Snapped().before == []
  {
    hide ShownAll, SpansOf, ShiftForDelete, Placeholder;
    RepresentsOrdered(b, p);
    if p.offset > 0 {
      assert p.after == [p.after[0]] + p.after[1..];
      assert p.Snapped().before[..|p.before|] == p.before;
      BackspacePasteRefines(b, p.before, p.after[0].content, p.after[1..]);
    } else if p.before != [] {
      var left, last := p.before[..|p.before| - 1], p.before[|p.before| - 1];
      assert p.before == left + [last];
      Focus(left, last, p.after);
      match last {
        case Paste(content) => BackspacePasteRefines(b, left, content, p.after);
        case Char(ch) => BackspaceCharRefines(b, left, ch, p.after);
      }
    } else {
      NothingBefore(p);
      assert b.SpanToBackspace() == None;
    }
  }

  lemma NothingBefore(p: Plain)
    requires p.before == []
    ensures ShownAll(p.before) == "" && SpansOf(p.before, 0) == []
    ensures SpansWithin(SpansOf(p.after, 0), 0, |ShownAll(p.after)|)
  {
    SpansOfBounds(p.after, 0);
  }

  /** Delete takes away the atom after the cursor. The buffer keeps the old cursor index,
      which is where the plain editor stands exactly when the cursor was between atoms. */
  lemma DeleteRefines(b: Buffer, p: Plain)
    requires Represents(b, p)
    ensures b.Ordered()
    ensures Represents(b.Deleted().(cursor := b.cursor - p.offset), p.Delete())
    ensures b.Deleted().cursor == b.cursor
    ensures Represents(b.Deleted(), p.Delete()) <==> p.offset == 0
    ensures (b.SpanToDelete().None? && b.cursor >= |b.input|) <==> p.after == []
  {
    hide ShownAll, SpansOf, ShiftForDelete, Placeholder;
    RepresentsOrdered(b, p);
    if p.after != [] {
      var a, right := p.after[0], p.after[1..];
      assert p.after == [a] + right;
      match a {
        case Paste(content) =>
          var i := RemovePasteRefines(b, p.before, content, right);
          assert b.SpanToDelete() == Some(i);
        case Char(ch) =>
          RemoveCharRefines(b, p.before, ch, right);
          assert b.SpanToDelete() == None;
      }
    } else {
      NothingAfter(p);
      assert b.SpanToDelete() == None;
    }
  }

  lemma NothingAfter(p: Plain)
    requires p.after == []
    ensures ShownAll(p.after) == "" && SpansOf(p.after, |ShownAll(p.before)|) == []
    ensures SpansWithin(SpansOf(p.before, 0), 0, |ShownAll(p.before)|)
  {
    SpansOfBounds(p.before, 0);
  }

  // ---- moving

  lemma LeftOverAtomRefines(b: Buffer, left: seq<Atom>, a: Atom, right: seq<Atom>)
    requires b.input == BufferOf(Plain(left, [a] + right, 0)).input
    requires b.spans == BufferOf(Plain(left, [a] + right, 0)).spans
    requires |ShownAll(left)| < b.cursor <= |ShownAll(left)| + |Shown(a)|
    ensures CursorLeftOverPastes(b.cursor, b.spans) == |ShownAll(left)|
  {
    hide ShownAll, SpansOf, Placeholder, BufferOf;
    if a.Paste? {
      var i := RemovePasteRefines(b, left, a.content, right);
    } else {
      RemoveCharRefines(b, left, a.ch, right);
    }
  }

  lemma LeftRefines(b: Buffer, p: Plain)
    requires Represents(b, p)
    ensures Represents(b.(cursor := CursorLeftOverPastes(b.cursor, b.spans)), p.Left())
  {
    hide ShownAll, SpansOf, Placeholder, Shown;
    if p.offset > 0 {
      assert p.after == [p.after[0]] + p.after[1..];
      LeftOverAtomRefines(b, p.before, p.after[0], p.after[1..]);
    } else if p.before != [] {
      var left, last := p.before[..|p.before| - 1], p.before[|p.before| - 1];
      assert p.before == left + [last];
      Focus(left, last, p.after);
      LeftOverAtomRefines(b, left, last, p.after);
    } else {
      NothingBefore(p);
    }
  }

  lemma RightOverAtomRefines(b: Buffer, left: seq<Atom>, a: Atom, right: seq<Atom>)
    requires b.input == BufferOf(Plain(left, [a] + right, 0)).input
    requires b.spans == BufferOf(Plain(left, [a] + right, 0)).spans
    requires |ShownAll(left)| <= b.cursor < |ShownAll(left)| + |Shown(a)| <= |b.input|
    ensures CursorRightOverPastes(b.input, b.cursor, b.spans) == |ShownAll(left)| + |Shown(a)|
  {
    hide ShownAll, SpansOf, Placeholder, BufferOf;
    if a.Paste? {
      var i := RemovePasteRefines(b, left, a.content, right);
    } else {
      RemoveCharRefines(b, left, a.ch, right);
    }
  }

  lemma RightRefines(b: Buffer, p: Plain)
    requires Represents(b, p)
    ensures Represents(b.(cursor := CursorRightOverPastes(b.input, b.cursor, b.spans)), p.Right())
  {
    hide ShownAll, SpansOf, Placeholder, Shown;
    if p.after != [] {
      var a, right := p.after[0], p.after[1..];
      assert p.after == [a] + right;
      Focus(p.before, a, right);
      RightOverAtomRefines(b, p.before, a, right);
    } else {
      NothingAfter(p);
      RepresentsSeparated(b, p);
    }
  }

  lemma RepresentsSeparated(b: Buffer, p: Plain)
    requires Represents(b, p)
    ensures forall i, j :: 0 <= i < j < |b.spans| ==> b.spans[i].end <= b.spans[j].start
    ensures SpansWithin(b.spans, 0, |b.input|)
  {
    BufferOfAtoms(p);
    SpansOfBounds(p.Atoms(), 0);
  }

  // ---- the representation is exact: every valid buffer shows one plain editor

  lemma PasteCovers(prefix: string, content: string, rest: string)
    requires content != ""
    ensures Covers(OwnSpans(Paste(content), |prefix|)[0], prefix + Shown(Paste(content)) + rest)
  {
    hide Placeholder;
    var shown := Placeholder(content);
    assert (prefix + shown + rest)[|prefix|..|prefix| + |shown|] == shown;
  }

  lemma Cons(a: Atom, rest: seq<Atom>, at: nat)
    ensures ShownAll([a] + rest) == Shown(a) + ShownAll(rest)
    ensures SpansOf([a] + rest, at) == OwnSpans(a, at) + SpansOf(rest, at + |Shown(a)|)
  {
    hide Shown, OwnSpans;
    assert ([a] + rest)[1..] == rest;
  }

  lemma {:induction false} SpansOfMatch(prefix: string, atoms: seq<Atom>)
    requires NonEmptyPastes(atoms)
    ensures forall s :: s in SpansOf(atoms, |prefix|) ==> Covers(s, prefix + ShownAll(atoms))
    decreases |atoms|
  {
    hide Placeholder, Covers, Shown, ShownAll, SpansOf;
    if atoms != [] {
      var a, rest := atoms[0], atoms[1..];
      assert atoms == [a] + rest;
      Cons(a, rest, |prefix|);
      SpansOfMatch(prefix + Shown(a), rest);
      assert prefix + ShownAll(atoms) == prefix + Shown(a) + ShownAll(rest);
      if a.Paste? {
        PasteCovers(prefix, a.content, ShownAll(rest));
      }
    } else {
      Nothing(|prefix|);
    }
  }

  lemma Nothing(at: nat)
    ensures ShownAll([]) == "" && SpansOf([], at) == []
  {
  }

  predicate SpansFrom(input: string, spans: seq<Span>, at: nat) {
    && at <= |input|
    && (forall s :: s in spans ==> Covers(s, input) && at <= s.start)
    && (forall i, j :: 0 <= i < j < |spans| ==> spans[i].end <= spans[j].start)
  }

  lemma DecodePaste(input: string, spans: seq<Span>, at: nat)
    requires SpansFrom(input, spans, at) && spans != [] && spans[0].start == at
    ensures spans[0].content != "" && OwnSpans(Paste(spans[0].content), at) == [spans[0]]
    ensures at < spans[0].end <= |input|
    ensures input[at..] == Placeholder(spans[0].content) + input[spans[0].end..]
    ensures SpansFrom(input, spans[1..], spans[0].end)
  {
    hide Placeholder;
    var first := spans[0];
    assert Covers(first, input);
    assert input[at..] == input[at..first.end] + input[first.end..];
    forall s | s in spans[1..] ensures Covers(s, input) && first.end <= s.start {
      var i :| 0 <= i < |spans[1..]| && spans[1..][i] == s;
      assert spans[i + 1] == s;
    }
  }

  lemma DecodeChar(input: string, spans: seq<Span>, at: nat)
    requires SpansFrom(input, spans, at) && (spans == [] || spans[0].start != at) && at < |input|
    ensures SpansFrom(input, spans, at + 1)
  {
    hide Placeholder;
    forall i | 0 <= i < |spans| ensures at < spans[i].start {
      assert spans[0] in spans && Covers(spans[0], input);
      assert i == 0 || spans[0].end <= spans[i].start;
    }
  }

  lemma CoversInRange(input: string, spans: seq<Span>, at: nat, s: Span)
    requires SpansFrom(input, spans, at) && s in spans
    ensures at <= s.start < s.end <= |input|
  {
  }

  lemma DecodeEnd(input: string, spans: seq<Span>)
    requires SpansFrom(input, spans, |input|)
    ensures spans == []
  {
    if spans != [] { CoversInRange(input, spans, |input|, spans[0]); }
  }

  lemma {:induction false} Decode(input: string, spans: seq<Span>, at: nat) returns (atoms: seq<Atom>)
    requires SpansFrom(input, spans, at)
    ensures ShownAll(atoms) == input[at..] && SpansOf(atoms, at) == spans && NonEmptyPastes(atoms)
    decreases |input| - at
  {
    hide Placeholder, Covers, ShownAll, SpansOf;
    if spans != [] && spans[0].start == at {
      DecodePaste(input, spans, at);
      var rest := Decode(input, spans[1..], spans[0].end);
      atoms := [Paste(spans[0].content)] + rest;
      Cons(Paste(spans[0].content), rest, at);
      assert spans == [spans[0]] + spans[1..];
    } else if at < |input| {
      DecodeChar(input, spans, at);
      var rest := Decode(input, spans, at + 1);
      atoms := [Char(input[at])] + rest;
      Cons(Char(input[at]), rest, at);
    } else {
      atoms := [];
      Nothing(at);
      DecodeEnd(input, spans);
    }
  }

  lemma HeadOf(a: seq<Atom>, at: nat)
    requires a != []
    ensures a[0].Paste? ==> SpansOf(a, at) != [] && SpansOf(a, at)[0].start == at && SpansOf(a, at)[0].content == a[0].content
    ensures a[0].Char? ==> ShownAll(a) != [] && ShownAll(a)[0] == a[0].ch
    ensures a[0].Char? && SpansOf(a, at) != [] ==> SpansOf(a, at)[0].start > at
  {
    hide Placeholder;
    SpansOfBounds(a[1..], at + |Shown(a[0])|);
  }

  lemma FirstAtomUnique(a: seq<Atom>, b: seq<Atom>, at: nat)
    requires a != [] && b != []
    requires ShownAll(a) == ShownAll(b) && SpansOf(a, at) == SpansOf(b, at)
    ensures a[0] == b[0]
  {
    hide ShownAll, SpansOf;
    HeadOf(a, at);
    HeadOf(b, at);
  }

  lemma {:induction false} AtomsUnique(a: seq<Atom>, b: seq<Atom>, at: nat)
    requires ShownAll(a) == ShownAll(b) && SpansOf(a, at) == SpansOf(b, at)
    ensures a == b
  {
    hide Placeholder, Shown, OwnSpans;
    if a != [] && b != [] {
      FirstAtomUnique(a, b, at);
      var shown, own := Shown(a[0]), OwnSpans(a[0], at);
      assert ShownAll(a)[|shown|..] == ShownAll(a[1..]) && ShownAll(b)[|shown|..] == ShownAll(b[1..]);
      assert SpansOf(a, at)[|own|..] == SpansOf(a[1..], at + |shown|);
      assert SpansOf(b, at)[|own|..] == SpansOf(b[1..], at + |shown|);
      AtomsUnique(a[1..], b[1..], at + |shown|);
      assert a == [a[0]] + a[1..] && b == [b[0]] + b[1..];
    }
  }

  lemma PlainAtStart(p: Plain)
    requires p.Ok() && p.before == []
    ensures p.offset <= |ShownAll(p.after)| && PlainAt(p.after, p.offset) == p && ShownAll(p.before) == ""
  {
    hide Placeholder;
  }

  lemma {:induction false} PlainAtUnique(p: Plain)
    requires p.Ok()
    ensures |ShownAll(p.before)| + p.offset <= |ShownAll(p.Atoms())|
    ensures PlainAt(p.Atoms(), |ShownAll(p.before)| + p.offset) == p
    decreases |p.before|
  {
    hide Shown, ShownAll, PlainAt;
    if p.before != [] {
      var a, q := p.before[0], p.(before := p.before[1..]);
      assert p.before == [a] + q.before && p.Atoms() == [a] + q.Atoms();
      PlainAtUnique(q);
      ShownAllCons(a, q.before);
      ShownAllCons(a, q.Atoms());
      PlainAtCons(a, q.Atoms(), |ShownAll(p.before)| + p.offset);
    } else {
      PlainAtStart(p);
      assert p.Atoms() == p.after;
    }
  }

  /** The stated invariant (spans sorted, disjoint, in range and equal to their placeholder,
      cursor in range) holds exactly of the buffers that show some plain editor. */
  lemma ValidIffRepresented(b: Buffer)
    ensures b.Valid() <==> exists p :: Represents(b, p)
  {
    hide ShownAll, SpansOf, Placeholder, BufferOf;
    if b.Valid() {
      var p := Represented(b);
    }
    forall p | Represents(b, p) ensures b.Valid() {
      RepresentedIsValid(b, p);
    }
  }

  lemma RepresentedIsValid(b: Buffer, p: Plain)
    requires Represents(b, p)
    ensures b.Valid()
  {
    hide ShownAll, SpansOf, Placeholder, BufferOf;
    BufferOfAtoms(p);
    RepresentsSeparated(b, p);
    SpansOfMatch("", p.Atoms());
    assert "" + ShownAll(p.Atoms()) == ShownAll(p.Atoms());
    PlainAtUnique(p);
    CursorOf(p);
  }

  lemma Represented(b: Buffer) returns (p: Plain)
    requires b.Valid()
    ensures Represents(b, p)
  {
    hide ShownAll, SpansOf, Placeholder, BufferOf, PlainAt;
    var atoms := Decode(b.input, b.spans, 0);
    p := PlainAt(atoms, b.cursor);
    PlainAtIsAt(atoms, b.cursor);
    BufferOfAtoms(p);
    CursorOf(p);
  }

  /** A buffer shows at most one plain editor. */
  lemma RepresentedIsUnique(b: Buffer, p: Plain, q: Plain)
    requires Represents(b, p) && Represents(b, q)
    ensures p == q
  {
    hide ShownAll, SpansOf, Placeholder, BufferOf, PlainAt;
    BufferOfAtoms(p);
    BufferOfAtoms(q);
    AtomsUnique(p.Atoms(), q.Atoms(), 0);
    PlainAtUnique(p);
    PlainAtUnique(q);
    CursorOf(p);
    CursorOf(q);
  }

  /** The cursor index is strictly inside a span exactly when the plain cursor is inside an atom. */
  lemma InsideIffOffset(b: Buffer, p: Plain)
    requires Represents(b, p)
    ensures b.InsideSpan() <==> p.offset > 0
  {
    hide ShownAll, SpansOf, Placeholder;
    if p.offset > 0 {
      assert p.after == [p.after[0]] + p.after[1..];
      Focus(p.before, p.after[0], p.after[1..]);
      assert b.spans[|SpansOf(p.before, 0)|] == OwnSpans(p.after[0], |ShownAll(p.before)|)[0];
    } else {
      SpansOfBounds(p.before, 0);
      SpansOfBounds(p.after, b.cursor);
    }
  }

  // ---- whole runs

  lemma JumpRefines(b: Buffer, p: Plain, index: nat)
    requires Represents(b, p) && index <= |ShownAll(p.Atoms())|
    ensures Represents(b.(cursor := index), PlainAt(p.Atoms(), index))
  {
    hide ShownAll, SpansOf, Placeholder, BufferOf, PlainAt;
    var q := PlainAt(p.Atoms(), index);
    PlainAtIsAt(p.Atoms(), index);
    BufferOfAtoms(p);
    BufferOfAtoms(q);
    CursorOf(q);
  }

  lemma EndsRefine(b: Buffer, p: Plain)
    requires Represents(b, p)
    ensures Represents(b.(cursor := 0), Plain([], p.Atoms(), 0))
    ensures Represents(b.(cursor := |b.input|), Plain(p.Atoms(), [], 0))
  {
    hide ShownAll, SpansOf, Placeholder, BufferOf;
    BufferOfAtoms(p);
    NothingBefore(Plain([], p.Atoms(), 0));
    NothingAfter(Plain(p.Atoms(), [], 0));
    BufferOfAtoms(Plain([], p.Atoms(), 0));
    BufferOfAtoms(Plain(p.Atoms(), [], 0));
    CursorOf(Plain([], p.Atoms(), 0));
    CursorOf(Plain(p.Atoms(), [], 0));
    assert [] + p.Atoms() == p.Atoms() == p.Atoms() + [];
  }

  /** One key on the buffer is the same key on the plain editor. */
  lemma StepRefines(b: Buffer, p: Plain, key: Key)
    requires Represents(b, p) && KeyFits(p, key)
    ensures b.Ordered()
    ensures Represents(b.Step(key), PlainStep(p, key))
  {
    hide ShownAll, SpansOf, BufferOf, PlainAt, Plain.Delete, Buffer.Deleted;
    RepresentsOrdered(b, p);
    match key
    case Type(ch) => InsertCharRefines(b, p, ch);
    case PasteText(text) => if text != "" { InsertPasteRefines(b, p, text); }
    case Backspace => BackspaceRefines(b, p);
    case Delete =>
      DeleteRefines(b, p);
      if p.offset > 0 {
        CursorOf(p);
        JumpRefines(b.Deleted().(cursor := b.cursor - p.offset), p.Delete(), b.cursor);
      }
    case Left => LeftRefines(b, p);
    case Right => RightRefines(b, p);
    case Home => EndsRefine(b, p);
    case End => EndsRefine(b, p);
    case Jump(index) => JumpRefines(b, p, index);
  }

  /** A key keeps the buffer valid exactly when it fits: the only keys that do not are a move
      beyond the end, and Delete when it leaves the cursor beyond the end. */
  lemma StepStaysValidIff(b: Buffer, p: Plain, key: Key)
    requires Represents(b, p)
    ensures b.Ordered()
    ensures b.Step(key).Valid() <==> KeyFits(p, key)
  {
    hide ShownAll, SpansOf, BufferOf, PlainAt, Plain.Delete, Buffer.Deleted;
    RepresentsOrdered(b, p);
    CursorOf(p);
    BufferOfAtoms(p);
    if KeyFits(p, key) {
      StepRefines(b, p, key);
      RepresentedIsValid(b.Step(key), PlainStep(p, key));
    } else if key.Delete? {
      DeleteRefines(b, p);
      BufferOfAtoms(p.Delete());
    }
  }

  ghost predicate RunFits(p: Plain, keys: seq<Key>)
    requires p.Ok()
    decreases |keys|
  {
    keys == [] || (KeyFits(p, keys[0]) && (PlainStepOk(p, keys[0]); RunFits(PlainStep(p, keys[0]), keys[1..])))
  }

  ghost function PlainRun(p: Plain, keys: seq<Key>): Plain
    requires p.Ok() && RunFits(p, keys)
    decreases |keys|
  {
    if keys == [] then p
    else PlainStepOk(p, keys[0]); PlainRun(PlainStep(p, keys[0]), keys[1..])
  }

  /** `c` is reached from `b` by pressing the keys in order. */
  ghost predicate Reaches(b: Buffer, keys: seq<Key>, c: Buffer)
    decreases |keys|
  {
    if keys == [] then b == c else b.Ordered() && Reaches(b.Step(keys[0]), keys[1..], c)
  }

  /** The editor refines the plain editor over every run, vertical moves included. */
  lemma {:induction false} RunRefines(b: Buffer, p: Plain, keys: seq<Key>, c: Buffer)
    requires Represents(b, p) && RunFits(p, keys) && Reaches(b, keys, c)
    ensures Represents(c, PlainRun(p, keys)) && c.Valid()
    decreases |keys|
  {
    if keys == [] {
      RepresentedIsValid(b, p);
    } else {
      PlainStepOk(p, keys[0]);
      StepRefines(b, p, keys[0]);
      RunRefines(b.Step(keys[0]), PlainStep(p, keys[0]), keys[1..], c);
    }
  }

  /** Without vertical moves no key needs a side condition and the cursor never enters a span. */
  lemma {:induction false} RunWithoutJumpsRefines(b: Buffer, p: Plain, keys: seq<Key>, c: Buffer)
    requires Represents(b, p) && p.offset == 0 && Reaches(b, keys, c)
    requires forall k :: k in keys ==> !k.Jump?
    ensures RunFits(p, keys)
    ensures Represents(c, PlainRun(p, keys)) && c.Valid() && !c.InsideSpan()
    decreases |keys|
  {
    if keys == [] {
      RepresentedIsValid(b, p);
      InsideIffOffset(b, p);
    } else {
      assert keys[0] in keys && forall k :: k in keys[1..] ==> k in keys;
      PlainStepOk(p, keys[0]);
      StepRefines(b, p, keys[0]);
      RunWithoutJumpsRefines(b.Step(keys[0]), PlainStep(p, keys[0]), keys[1..], c);
    }
  }

  // ---- keys pressed while the cursor is inside a placeholder

  /** Typing, Backspace, Left and Right leave the inside of a placeholder from any valid buffer. */
  lemma KeysLeavePlaceholder(b: Buffer, key: Key)
    requires b.Valid()
    requires key.Type? || key.Backspace? || key.Left? || key.Right? || (key.PasteText? && key.text != "")
    ensures b.Ordered() && b.Step(key).Valid() && !b.Step(key).InsideSpan()
  {
    hide ShownAll, SpansOf, BufferOf;
    var p := Represented(b);
    StepRefines(b, p, key);
    RepresentedIsValid(b.Step(key), PlainStep(p, key));
    InsideIffOffset(b.Step(key), PlainStep(p, key));
  }

  lemma DeletedInside(b: Buffer, i: nat)
    requires b.Valid() && i < |b.spans| && b.spans[i].start < b.cursor < b.spans[i].end
    ensures b.Ordered() && b.Deleted().SpansOk() && b.Deleted().cursor == b.cursor
    ensures b.Deleted() == b.RemoveSpan(i).(cursor := b.cursor)
    ensures |b.Deleted().input| == |b.input| - (b.spans[i].end - b.spans[i].start)
  {
    hide ShownAll, SpansOf, Placeholder, BufferOf;
    var p := Represented(b);
    DeleteRefines(b, p);
    RepresentedIsValid(b.Deleted().(cursor := b.cursor - p.offset), p.Delete());
    assert b.SpanToDelete() == Some(i);
  }

  lemma SpansNotEmpty(b: Buffer)
    requires b.SpansOk()
    ensures forall j :: 0 <= j < |b.spans| ==> b.spans[j].start < b.spans[j].end
  {
  }

  predicate Around(left: seq<Span>, removed: Span, right: seq<Span>) {
    && (forall j :: 0 <= j < |left| ==> left[j].end <= removed.start)
    && (forall j :: 0 <= j < |right| ==> removed.end <= right[j].start < right[j].end)
  }

  lemma InsideBeforeRemoval(left: seq<Span>, removed: Span, right: seq<Span>, cursor: nat)
    requires removed.start < cursor < removed.end && Around(left, removed, right)
    requires InSome(left + [removed] + right, cursor + (removed.end - removed.start))
    ensures InSome(ShiftForRemoval(left + right, removed), cursor)
  {
    var before, landing := left + [removed] + right, cursor + (removed.end - removed.start);
    var j :| 0 <= j < |before| && before[j].start < landing < before[j].end;
    var after := ShiftForRemoval(left + right, removed);
    assert after[j - 1].start < cursor < after[j - 1].end;
  }

  lemma InsideAfterRemoval(left: seq<Span>, removed: Span, right: seq<Span>, cursor: nat)
    requires removed.start < cursor < removed.end && Around(left, removed, right)
    requires InSome(ShiftForRemoval(left + right, removed), cursor)
    ensures InSome(left + [removed] + right, cursor + (removed.end - removed.start))
  {
    var after := ShiftForRemoval(left + right, removed);
    var j :| 0 <= j < |after| && after[j].start < cursor < after[j].end;
    var before, landing := left + [removed] + right, cursor + (removed.end - removed.start);
    assert before[j + 1].start < landing < before[j + 1].end;
  }

  /** Delete inside placeholder `i` keeps the spans in order, but the cursor, which does not
      move, then stands where the index `cursor + width` stood: the buffer stays valid exactly
      when that index is in range, and leaves all placeholders exactly when that index does. */
  lemma DeleteInsidePlaceholder(b: Buffer, i: nat)
    requires b.Valid() && i < |b.spans| && b.spans[i].start < b.cursor < b.spans[i].end
    ensures b.Ordered() && b.Deleted().SpansOk()
    ensures var landing := b.(cursor := b.cursor + (b.spans[i].end - b.spans[i].start));
            && (b.Deleted().Valid() <==> landing.cursor <= |b.input|)
            && (b.Deleted().InsideSpan() <==> landing.InsideSpan())
  {
    hide ReplaceRange, Buffer.Deleted, Covers, ShiftForRemoval;
    DeletedInside(b, i);
    SpansNotEmpty(b);
    var left, removed, right := b.spans[..i], b.spans[i], b.spans[i + 1..];
    assert left + [removed] + right == b.spans;
    if InSome(ShiftForRemoval(left + right, removed), b.cursor) {
      InsideAfterRemoval(left, removed, right, b.cursor);
    }
    if InSome(b.spans, b.cursor + (removed.end - removed.start)) {
      InsideBeforeRemoval(left, removed, right, b.cursor);
    }
  }
}
