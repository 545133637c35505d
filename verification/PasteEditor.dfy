/** The input box of the terminal UI with its three variables updated in place. Each method
    is proved against the operation of the same name on `Buffer`; `Press` adds what that
    means for the plain editor. */
module PasteEditor {
  import opened Text
  import opened AtomEditor
  import opened PasteBuffer

  class InputBox {
    var input: string
    var cursor: nat
    var spans: seq<Span>

    constructor ()
      ensures Value() == Buffer("", 0, [])
    {
      input, cursor, spans := "", 0, [];
    }

    function Value(): Buffer
      reads this
    {
      Buffer(input, cursor, spans)
    }

    method ShiftSpansForInsert(insertAt: nat, insertedChars: nat)
      modifies this`spans
      ensures spans == ShiftForInsert(old(spans), insertAt, insertedChars)
    {
      ghost var was := spans;
      for i := 0 to |spans|
        invariant |spans| == |was|
        invariant forall j :: 0 <= j < i ==> spans[j] == ShiftedForInsert(was[j], insertAt, insertedChars)
        invariant forall j :: i <= j < |was| ==> spans[j] == was[j]
      {
        if spans[i].start >= insertAt {
          spans := spans[i := spans[i].(start := spans[i].start + insertedChars, end := spans[i].end + insertedChars)];
        }
      }
    }

    method ShiftSpansForDelete(deleteStart: nat, deleteEnd: nat)
      requires deleteStart <= deleteEnd
      modifies this`spans
      ensures spans == ShiftForDelete(old(spans), deleteStart, deleteEnd)
    {
      var removedChars := SatSub(deleteEnd, deleteStart);
      var retained: seq<Span> := [];
      for i := 0 to |spans|
        invariant spans == old(spans)
        invariant retained == ShiftForDelete(spans[..i], deleteStart, deleteEnd)
      {
        var span := spans[i];
        ShiftForDeleteSnoc(spans[..i], span, deleteStart, deleteEnd);
        assert spans[..i + 1] == spans[..i] + [span];
        if span.end <= deleteStart {
          retained := retained + [span];
        } else if span.start >= deleteEnd {
          retained := retained + [span.(start := SatSub(span.start, removedChars), end := SatSub(span.end, removedChars))];
        }
      }
      assert spans[..|spans|] == spans;
      spans := retained;
    }

    /** Returns the place of the cursor that the source writes through a reference. */
    method RemovePastedSpan(index: nat) returns (at: nat)
      requires index < |spans| && spans[index].start <= spans[index].end
      modifies this`input, this`spans
      ensures Buffer(input, at, spans) == old(Value()).RemoveSpan(index)
    {
      var span := spans[index];
      spans := spans[..index] + spans[index + 1..];
      input := ReplaceRange(input, span.start, span.end, "");
      var removedChars := SatSub(span.end, span.start);
      ghost var others := spans;
      for i := 0 to |spans|
        invariant input == ReplaceRange(old(input), span.start, span.end, "")
        invariant |spans| == |others|
        invariant forall j :: 0 <= j < i ==> spans[j] == ShiftedForRemoval(others[j], span)
        invariant forall j :: i <= j < |others| ==> spans[j] == others[j]
      {
        if spans[i].start >= span.end {
          spans := spans[i := spans[i].(start := SatSub(spans[i].start, removedChars), end := SatSub(spans[i].end, removedChars))];
        }
      }
      assert spans == ShiftForRemoval(others, span);
      at := span.start;
    }

    method InsertChar(ch: char)
      modifies this
      ensures Value() == old(Value()).InsertChar(ch)
    {
      cursor := CursorAfterPasteSpan(cursor, spans);
      input := InsertStr(input, cursor, [ch]);
      cursor := cursor + 1;
      ShiftSpansForInsert(SatSub(cursor, 1), 1);
    }

    method InsertText(text: string)
      modifies this
      ensures Value() == old(Value()).InsertText(text)
    {
      if text == "" {
        return;
      }
      cursor := CursorAfterPasteSpan(cursor, spans);
      var normalized := NormalizePastedText(text);
      var insertAt := cursor;
      input := InsertStr(input, insertAt, normalized);
      cursor := cursor + |normalized|;
      ShiftSpansForInsert(insertAt, |normalized|);
    }

    method InsertPaste(text: string)
      modifies this
      ensures Value() == old(Value()).InsertPaste(text)
    {
      if text == "" {
        return;
      }
      var normalized := NormalizePastedText(text);
      if !ShouldCollapsePaste(normalized) {
        InsertText(normalized);
        return;
      }
      cursor := CursorAfterPasteSpan(cursor, spans);
      var placeholder := Placeholder(normalized);
      var insertAt := cursor;
      input := InsertStr(input, insertAt, placeholder);
      ShiftSpansForInsert(insertAt, |placeholder|);
      spans := spans + [Span(insertAt, insertAt + |placeholder|, placeholder, normalized)];
      spans := SortByStart(spans);
      cursor := insertAt + |placeholder|;
    }

    /** Reports whether anything was removed. */
    method BackspaceKey() returns (removed: bool)
      requires Value().Ordered()
      modifies this
      ensures Value() == old(Value()).Backspaced()
      ensures !removed <==> old(Value().SpanToBackspace().None? && cursor == 0)
    {
      match Value().SpanToBackspace()
      case Some(index) =>
        cursor := RemovePastedSpan(index);
        return true;
      case None =>
        if cursor == 0 {
          return false;
        }
        var removeIndex := SatSub(cursor, 1);
        input := ReplaceRange(input, removeIndex, cursor, "");
        cursor := removeIndex;
        ShiftSpansForDelete(removeIndex, removeIndex + 1);
        return true;
    }

    /** Reports whether anything was removed. The cursor stays where it is. */
    method DeleteKey() returns (removed: bool)
      requires Value().Ordered()
      modifies this`input, this`spans
      ensures Value() == old(Value()).Deleted()
      ensures !removed <==> old(Value().SpanToDelete().None? && cursor >= |input|)
    {
      match Value().SpanToDelete()
      case Some(index) =>
        var at := RemovePastedSpan(index);
        return true;
      case None =>
        if cursor >= |input| {
          return false;
        }
        input := ReplaceRange(input, cursor, cursor + 1, "");
        ShiftSpansForDelete(cursor, cursor + 1);
        return true;
    }

    /** One key of the event loop. */
    method Press(key: Key)
      requires Value().Ordered()
      modifies this
      ensures Value() == old(Value()).Step(key)
      ensures forall p: Plain :: old(Represents(Value(), p)) && KeyFits(p, key) ==> Represents(Value(), PlainStep(p, key))
    {
      ghost var was := Value();
      match key {
        case Type(ch) => InsertChar(ch);
        case PasteText(text) => InsertPaste(text);
        case Backspace => var removed := BackspaceKey();
        case Delete => var removed := DeleteKey();
        case Left => cursor := CursorLeftOverPastes(cursor, spans);
        case Right => cursor := CursorRightOverPastes(input, cursor, spans);
        case Home => cursor := 0;
        case End => cursor := |input|;
        case Jump(index) => cursor := index;
      }
      forall p: Plain | Represents(was, p) && KeyFits(p, key) ensures Represents(Value(), PlainStep(p, key)) {
        StepRefines(was, p, key);
      }
    }
  }
}

/** Submitting the line: placeholders are expanded in the trimmed buffer, last span first. */
module SubmitLine {
  import opened Text
  import opened AtomEditor
  import opened PasteBuffer
  import Wrap = InputWrap

  /** The body of the expansion loop for one span. */
  function ReplaceRef(expanded: string, span: Span): string {
    var start, end := ClampIndex(expanded, span.start), ClampIndex(expanded, span.end);
    if start <= end && expanded[start..end] == span.placeholder
    then expanded[..start] + span.content + expanded[end..]
    else expanded
  }

  function ExpandSorted(text: string, spans: seq<Span>): string
    decreases |spans|
  {
    if spans == [] then text
    else ExpandSorted(ReplaceRef(text, spans[|spans| - 1]), spans[..|spans| - 1])
  }

  function Expand(text: string, spans: seq<Span>): string {
    ExpandSorted(text, SortByStart(spans))
  }

  lemma ExpandStep(text: string, spans: seq<Span>, i: nat)
    requires i < |spans|
    ensures ExpandSorted(text, spans[..i + 1]) == ExpandSorted(ReplaceRef(text, spans[i]), spans[..i])
  {
    assert spans[..i + 1][..i] == spans[..i];
  }

  lemma NothingLeft(text: string)
    ensures ExpandSorted(text, []) == text
  {
  }

  method ExpandPastedContentRefs(input: string, pastedSpans: seq<Span>) returns (expanded: string)
    ensures expanded == Expand(input, pastedSpans)
  {
    hide ExpandSorted;
    expanded := input;
    var spans := SortByStart(pastedSpans);
    var i := |spans|;
    assert spans[..i] == spans;
    while i > 0
      invariant 0 <= i <= |spans|
      invariant ExpandSorted(expanded, spans[..i]) == Expand(input, pastedSpans)
    {
      i := i - 1;
      var span := spans[i];
      ExpandStep(expanded, spans, i);
      var start, end := ClampIndex(expanded, span.start), ClampIndex(expanded, span.end);
      if start <= end && expanded[start..end] == span.placeholder {
        expanded := expanded[..start] + span.content + expanded[end..];
      }
    }
    NothingLeft(expanded);
  }

  /** What the event loop submits. */
  function Submit(input: string, spans: seq<Span>): string {
    Expand(Trim(input), spans)
  }

  // ---- expansion is flattening

  /** Replacing a span leaves every span before it covering its placeholder. */
  lemma EarlierSpansStayValid(text: string, earlier: Span, later: Span)
    requires Covers(earlier, text) && earlier.end <= later.start
    ensures Covers(earlier, ReplaceRef(text, later))
  {
    hide Placeholder;
    var end := ClampIndex(text, later.end);
    assert ReplaceRef(text, later)[earlier.start..earlier.end] == text[earlier.start..earlier.end];
  }

  lemma SpansSort(atoms: seq<Atom>)
    ensures SortByStart(SpansOf(atoms, 0)) == SpansOf(atoms, 0)
  {
    SpansOfBounds(atoms, 0);
    SortedStays(SpansOf(atoms, 0));
  }

  lemma ReplacePaste(left: string, content: string, tail: string)
    ensures ReplaceRef(left + Placeholder(content) + tail,
                       Span(|left|, |left| + |Placeholder(content)|, Placeholder(content), content))
         == left + content + tail
  {
    hide Placeholder;
    var shown := Placeholder(content);
    assert (left + shown + tail)[|left|..|left| + |shown|] == shown;
  }

  lemma SplitLast(init: seq<Atom>, last: Atom)
    ensures ShownAll(init + [last]) == ShownAll(init) + Shown(last)
    ensures SpansOf(init + [last], 0) == SpansOf(init, 0) + OwnSpans(last, |ShownAll(init)|)
    ensures Flatten(init + [last]) == Flatten(init) + Meaning(last)
  {
    hide ShownAll, SpansOf, Shown, OwnSpans;
    ShownAllAppend(init, [last]);
    SpansOfAppend(init, [last], 0);
    Single(last, |ShownAll(init)|);
    FlattenAppend(init, [last]);
  }

  lemma ExpandLast(text: string, spans: seq<Span>, s: Span)
    ensures ExpandSorted(text, spans + [s]) == ExpandSorted(ReplaceRef(text, s), spans)
  {
    assert (spans + [s])[..|spans|] == spans;
  }

  lemma {:induction false} ExpandSortedFlattens(atoms: seq<Atom>, tail: string)
    ensures ExpandSorted(ShownAll(atoms) + tail, SpansOf(atoms, 0)) == Flatten(atoms) + tail
    decreases |atoms|
  {
    hide ShownAll, SpansOf, Placeholder, Flatten, ReplaceRef, ExpandSorted;
    if atoms != [] {
      var init, last := atoms[..|atoms| - 1], atoms[|atoms| - 1];
      assert atoms == init + [last];
      SplitLast(init, last);
      ExpandSortedFlattens(init, Meaning(last) + tail);
      Assoc(ShownAll(init), Meaning(last), tail);
      Assoc(Flatten(init), Meaning(last), tail);
      if last.Paste? {
        ReplacePaste(ShownAll(init), last.content, tail);
        ExpandLast(ShownAll(atoms) + tail, SpansOf(init, 0), OwnSpans(last, |ShownAll(init)|)[0]);
      } else {
        assert SpansOf(init, 0) + [] == SpansOf(init, 0);
      }
    } else {
      NothingToExpand(tail);
    }
  }

  lemma NothingToExpand(tail: string)
    ensures ExpandSorted(ShownAll([]) + tail, SpansOf([], 0)) == Flatten([]) + tail
  {
  }

  /** Expanding the untrimmed buffer yields exactly the meaning of its atoms. */
  lemma ExpandFlattens(atoms: seq<Atom>)
    ensures Expand(ShownAll(atoms), SpansOf(atoms, 0)) == Flatten(atoms)
  {
    hide ShownAll, SpansOf, Flatten, ExpandSorted;
    SpansSort(atoms);
    ExpandSortedFlattens(atoms, "");
    assert ShownAll(atoms) + "" == ShownAll(atoms) && Flatten(atoms) + "" == Flatten(atoms);
  }

  // ---- trimming

  predicate IsSpace(a: Atom) {
    a.Char? && IsWhitespace(a.ch)
  }

  /** How many white-space characters the user typed in front. */
  function LeadingSpaces(atoms: seq<Atom>): (k: nat)
    ensures k <= |atoms|
    ensures forall i :: 0 <= i < k ==> IsSpace(atoms[i])
    ensures k < |atoms| ==> !IsSpace(atoms[k])
  {
    if atoms != [] && IsSpace(atoms[0]) then 1 + LeadingSpaces(atoms[1..]) else 0
  }

  function WithoutTrailingSpaces(atoms: seq<Atom>): (r: seq<Atom>)
    ensures r <= atoms
    ensures forall i :: |r| <= i < |atoms| ==> IsSpace(atoms[i])
    ensures r != [] ==> !IsSpace(r[|r| - 1])
  {
    if atoms != [] && IsSpace(atoms[|atoms| - 1]) then WithoutTrailingSpaces(atoms[..|atoms| - 1]) else atoms
  }

  function TrimAtoms(atoms: seq<Atom>): seq<Atom> {
    WithoutTrailingSpaces(atoms[LeadingSpaces(atoms)..])
  }

  predicate NoPaste(atoms: seq<Atom>) {
    forall a :: a in atoms ==> a.Char?
  }

  lemma TrimEndSpace(s: string, ch: char)
    requires IsWhitespace(ch)
    ensures TrimEnd(s + [ch]) == TrimEnd(s)
  {
    assert (s + [ch])[..|s|] == s;
  }

  lemma TrimEndStays(s: string)
    requires s != "" && !IsWhitespace(s[|s| - 1])
    ensures TrimEnd(s) == s
  {
  }

  lemma DropTrailingSpace(init: seq<Atom>, last: Atom)
    ensures WithoutTrailingSpaces(init + [last]) == if IsSpace(last) then WithoutTrailingSpaces(init) else init + [last]
  {
    assert (init + [last])[..|init|] == init;
  }

  lemma {:induction false} TrimEndShown(atoms: seq<Atom>)
    ensures TrimEnd(ShownAll(atoms)) == ShownAll(WithoutTrailingSpaces(atoms))
    ensures SpansOf(WithoutTrailingSpaces(atoms), 0) == SpansOf(atoms, 0)
    decreases |atoms|
  {
    if atoms != [] {
      hide ShownAll, SpansOf, Placeholder, TrimEnd, WithoutTrailingSpaces;
      var init, last := atoms[..|atoms| - 1], atoms[|atoms| - 1];
      assert atoms == init + [last];
      SplitLast(init, last);
      DropTrailingSpace(init, last);
      if IsSpace(last) {
        TrimEndShown(init);
        TrimEndSpace(ShownAll(init), last.ch);
        assert SpansOf(init, 0) + [] == SpansOf(init, 0);
      } else {
        TrimEndStays(ShownAll(atoms));
      }
    }
  }

  lemma {:induction false} TrimStartShown(atoms: seq<Atom>)
    ensures TrimStart(ShownAll(atoms)) == ShownAll(atoms[LeadingSpaces(atoms)..])
  {
    hide ShownAll, Placeholder;
    if atoms != [] {
      var a, rest := atoms[0], atoms[1..];
      assert atoms == [a] + rest;
      ShownAllCons(a, rest);
      assert ShownAll(atoms)[0] == Shown(a)[0];
      if IsSpace(a) {
        TrimStartShown(rest);
        assert ShownAll(atoms)[1..] == ShownAll(rest);
        assert atoms[LeadingSpaces(atoms)..] == rest[LeadingSpaces(rest)..];
      }
    } else {
      Nothing(0);
    }
  }

  lemma TrimShown(atoms: seq<Atom>)
    ensures Trim(ShownAll(atoms)) == ShownAll(TrimAtoms(atoms))
  {
    TrimStartShown(atoms);
    TrimEndShown(atoms[LeadingSpaces(atoms)..]);
  }

  lemma {:induction false} NoPasteIsText(atoms: seq<Atom>, at: nat)
    requires NoPaste(atoms)
    ensures SpansOf(atoms, at) == [] && Flatten(atoms) == ShownAll(atoms)
  {
    if atoms != [] {
      assert atoms[0] in atoms && forall a :: a in atoms[1..] ==> a in atoms;
      NoPasteIsText(atoms[1..], at + 1);
    }
  }

  /** Submitting is right when the line has no leading white space or no collapsed paste. */
  lemma SubmitFlattens(atoms: seq<Atom>)
    requires LeadingSpaces(atoms) == 0 || NoPaste(atoms)
    ensures Submit(ShownAll(atoms), SpansOf(atoms, 0)) == Flatten(TrimAtoms(atoms))
  {
    hide ShownAll, SpansOf, Expand, Flatten, Trim;
    TrimShown(atoms);
    ExpandFlattens(TrimAtoms(atoms));
    if NoPaste(atoms) {
      NoPasteIsText(atoms, 0);
      NoPasteIsText(TrimAtoms(atoms), 0);
    } else {
      assert atoms[0..] == atoms;
      TrimEndShown(atoms);
    }
  }

  // ---- leading white space

  lemma {:induction false} ExpansionKeepsPrefix(text: string, spans: seq<Span>, n: nat)
    requires n <= |text|
    requires forall i :: 0 <= i < |spans| ==> n <= spans[i].start
    ensures |ExpandSorted(text, spans)| >= n && ExpandSorted(text, spans)[..n] == text[..n]
    decreases |spans|
  {
    if spans != [] {
      var next := ReplaceRef(text, spans[|spans| - 1]);
      assert |next| >= n && next[..n] == text[..n];
      ExpansionKeepsPrefix(next, spans[..|spans| - 1], n);
    }
  }

  function FirstPaste(atoms: seq<Atom>): (f: nat)
    requires !NoPaste(atoms)
    ensures f < |atoms| && atoms[f].Paste? && forall i :: 0 <= i < f ==> atoms[i].Char?
  {
    if atoms[0].Paste? then 0
    else
      assert !NoPaste(atoms[1..]) by { assert atoms == [atoms[0]] + atoms[1..]; }
      1 + FirstPaste(atoms[1..])
  }

  /** Atom `f`, preceded by characters only, is shown at index `f` and its meaning starts there. */
  lemma {:induction false} AtIndex(atoms: seq<Atom>, f: nat)
    requires f < |atoms| && forall i :: 0 <= i < f ==> atoms[i].Char?
    requires Meaning(atoms[f]) != ""
    ensures |ShownAll(atoms)| > f && ShownAll(atoms)[f] == Shown(atoms[f])[0]
    ensures |Flatten(atoms)| > f && Flatten(atoms)[f] == Meaning(atoms[f])[0]
  {
    hide Placeholder;
    if f > 0 {
      AtIndex(atoms[1..], f - 1);
    }
  }

  lemma {:induction false} SpansAfterFirst(atoms: seq<Atom>, f: nat, at: nat)
    requires f < |atoms| && forall i :: 0 <= i < f ==> atoms[i].Char?
    ensures forall i :: 0 <= i < |SpansOf(atoms, at)| ==> at + f <= SpansOf(atoms, at)[i].start
  {
    hide Placeholder;
    if f > 0 {
      SpansAfterFirst(atoms[1..], f - 1, at + 1);
    } else {
      SpansOfBounds(atoms, at);
    }
  }

  lemma TrimKeepsPaste(atoms: seq<Atom>, f: nat)
    requires f < |atoms| && atoms[f].Paste?
    ensures LeadingSpaces(atoms) <= f < LeadingSpaces(atoms) + |TrimAtoms(atoms)|
    ensures forall i :: 0 <= i <= f - LeadingSpaces(atoms) ==> TrimAtoms(atoms)[i] == atoms[LeadingSpaces(atoms) + i]
  {
    var k := LeadingSpaces(atoms);
    var rest, kept := atoms[k..], TrimAtoms(atoms);
    assert rest[f - k] == atoms[f];
    assert kept == rest[..|kept|];
  }

  /** With leading white space and a collapsed paste the span indices miss their placeholders:
      the first paste is submitted as its placeholder. */
  lemma LeadingSpaceMisplacesPastes(atoms: seq<Atom>)
    requires NonEmptyPastes(atoms) && LeadingSpaces(atoms) > 0 && !NoPaste(atoms)
    requires atoms[FirstPaste(atoms)].content[0] != '['
    ensures Submit(ShownAll(atoms), SpansOf(atoms, 0)) != Flatten(TrimAtoms(atoms))
  {
    hide ShownAll, SpansOf, Flatten, Trim, Placeholder, TrimAtoms, ExpandSorted;
    var k, f := LeadingSpaces(atoms), FirstPaste(atoms);
    TrimShown(atoms);
    TrimKeepsPaste(atoms, f);
    var kept := TrimAtoms(atoms);
    var n := f - k;
    assert kept[n] == atoms[f] && forall i :: 0 <= i < n ==> kept[i].Char?;
    assert atoms[f] in atoms;
    AtIndex(kept, n);
    SpansSort(atoms);
    SpansAfterFirst(atoms, f, 0);
    ExpansionKeepsPrefix(ShownAll(kept), SpansOf(atoms, 0), n + 1);
    var actual := Submit(ShownAll(atoms), SpansOf(atoms, 0));
    assert actual[n] == actual[..n + 1][n] == ShownAll(kept)[..n + 1][n] == '[';
  }

  /** Two lines that look the same in the buffer: only the hidden contents differ. */
  predicate SameLayout(a: seq<Atom>, b: seq<Atom>) {
    && |a| == |b|
    && forall i :: 0 <= i < |a| ==>
         || a[i] == b[i]
         || (a[i].Paste? && b[i].Paste? && |a[i].content| == |b[i].content|)
  }

  /** The layout of a line decides whether submitting it is right whatever was pasted: it is
      exactly when there is no leading white space or no collapsed paste. */
  lemma SubmitIsRightIff(atoms: seq<Atom>)
    requires NonEmptyPastes(atoms)
    ensures (forall other :: SameLayout(atoms, other) ==> Submit(ShownAll(other), SpansOf(other, 0)) == Flatten(TrimAtoms(other)))
       <==> (LeadingSpaces(atoms) == 0 || NoPaste(atoms))
  {
    hide ShownAll, SpansOf, Flatten, Submit, TrimAtoms, Placeholder;
    if LeadingSpaces(atoms) == 0 || NoPaste(atoms) {
      forall other | SameLayout(atoms, other)
        ensures Submit(ShownAll(other), SpansOf(other, 0)) == Flatten(TrimAtoms(other))
      {
        SameLayoutSameGuard(atoms, other);
        SubmitFlattens(other);
      }
    } else {
      var other := Masked(atoms);
      SameLayoutSameGuard(atoms, other);
      LeadingSpaceMisplacesPastes(other);
    }
  }

  function Masked(atoms: seq<Atom>): (r: seq<Atom>)
    ensures SameLayout(atoms, r)
    ensures forall i :: 0 <= i < |r| && r[i].Paste? && r[i].content != "" ==> r[i].content[0] != '['
    ensures NonEmptyPastes(atoms) ==> NonEmptyPastes(r)
  {
    seq(|atoms|, i requires 0 <= i < |atoms| =>
      match atoms[i]
      case Char(_) => atoms[i]
      case Paste(content) => Paste(seq(|content|, _ => 'x')))
  }

  lemma {:induction false} SameLeadingSpaces(a: seq<Atom>, b: seq<Atom>)
    requires SameLayout(a, b)
    ensures LeadingSpaces(a) == LeadingSpaces(b)
  {
    if a != [] {
      SameLeadingSpaces(a[1..], b[1..]);
    }
  }

  lemma SameLayoutSameGuard(a: seq<Atom>, b: seq<Atom>)
    requires SameLayout(a, b)
    ensures LeadingSpaces(a) == LeadingSpaces(b)
    ensures NoPaste(a) <==> NoPaste(b)
  {
    SameLeadingSpaces(a, b);
    if NoPaste(a) {
      assert forall k :: 0 <= k < |a| ==> a[k] in a;
    }
    if NoPaste(b) {
      assert forall k :: 0 <= k < |b| ==> b[k] in b;
    }
  }

  /** Editing from an empty box, vertical moves included, and submitting sends what the plain
      editor means. */
  lemma RunThenSubmit(keys: seq<Key>, c: Buffer)
    requires Reaches(Buffer("", 0, []), keys, c) && RunFits(Plain([], [], 0), keys)
    ensures var atoms := PlainRun(Plain([], [], 0), keys).Atoms();
            LeadingSpaces(atoms) == 0 || NoPaste(atoms) ==> Submit(c.input, c.spans) == Flatten(TrimAtoms(atoms))
  {
    hide ShownAll, SpansOf, Flatten, Submit, TrimAtoms, LeadingSpaces, NoPaste;
    var empty := Plain([], [], 0);
    BufferOfAtoms(empty);
    Nothing(0);
    RunRefines(Buffer("", 0, []), empty, keys, c);
    var p := PlainRun(empty, keys);
    BufferOfAtoms(p);
    if LeadingSpaces(p.Atoms()) == 0 || NoPaste(p.Atoms()) {
      SubmitFlattens(p.Atoms());
    }
  }

  /** Without vertical moves every run fits. */
  lemma RunWithoutJumpsThenSubmit(keys: seq<Key>, c: Buffer)
    requires Reaches(Buffer("", 0, []), keys, c)
    requires forall k :: k in keys ==> !k.Jump?
    ensures RunFits(Plain([], [], 0), keys)
    ensures var atoms := PlainRun(Plain([], [], 0), keys).Atoms();
            LeadingSpaces(atoms) == 0 || NoPaste(atoms) ==> Submit(c.input, c.spans) == Flatten(TrimAtoms(atoms))
  {
    hide ShownAll, SpansOf;
    var empty := Plain([], [], 0);
    BufferOfAtoms(empty);
    Nothing(0);
    RunWithoutJumpsRefines(Buffer("", 0, []), empty, keys, c);
    RunThenSubmit(keys, c);
  }

  lemma {:induction false} DigitsHaveNoNewline(n: nat)
    ensures '\n' !in Digits(n)
  {
    if n >= 10 { DigitsHaveNoNewline(n / 10); }
  }

  lemma PlaceholderHasNoNewline(content: string)
    ensures '\n' !in Placeholder(content)
  {
    DigitsHaveNoNewline(|content|);
  }

  /** A vertical move that goes inside a placeholder: where the last character of the
      placeholder does not fit on the line of the others, the move up from its end goes to
      index one. */
  lemma MoveIntoPlaceholder(width: char -> nat, content: string, lines: seq<Wrap.Line>)
    requires Wrap.UnitWidths(width, Placeholder(content))
    requires Wrap.Wrapped(width, Wrap.VisibleWidth(|Placeholder(content)| + 2), Placeholder(content), lines)
    ensures Wrap.MoveVertically(lines, |Placeholder(content)|, -1) == Some(1)
  {
    hide Placeholder, Wrap.Wrapped, Wrap.BestOffset;
    var shown := Placeholder(content);
    PlaceholderHasNoNewline(content);
    var n := |shown|;
    Wrap.TwoUnitLines(width, n - 1, shown, lines);
    Wrap.UnitBest(width, n - 1, shown, 0, n - 1, 1);
  }

  /** Delete pressed inside the only placeholder leaves the cursor behind the end. A long paste
      then gets a span that is out of range, and is submitted as its placeholder. */
  lemma PasteAfterDeleteInsideIsLost(first: string, second: string) returns (b: Buffer)
    requires '\r' !in first && ShouldCollapsePaste(first) && first != ""
    requires '\r' !in second && ShouldCollapsePaste(second) && second != ""
    ensures Reaches(Buffer("", 0, []), [PasteText(first), Jump(1), Delete, PasteText(second)], b)
    ensures !b.SpansOk()
    ensures Submit(b.input, b.spans) == Placeholder(second)
  {
    hide Placeholder, ShouldCollapsePaste, NormalizePastedText, Reaches, Buffer.InsertPaste, Submit;
    var p1, p2 := Placeholder(first), Placeholder(second);
    var b1 := Buffer(p1, |p1|, [Span(0, |p1|, p1, first)]);
    PasteIntoEmpty(0, first);
    PasteIntoEmpty(1, second);
    DeleteOnlySpan(p1, first);
    b := Buffer(p2, 1 + |p2|, [Span(1, 1 + |p2|, p2, second)]);
    ReachesFour(Buffer("", 0, []), b1, b1.(cursor := 1), Buffer("", 1, []), b,
                [PasteText(first), Jump(1), Delete, PasteText(second)]);
    assert b.spans[0].end > |b.input|;
    OutOfRangeSpanIsNotExpanded(p2, second);
  }

  lemma DeleteOnlySpan(shown: string, content: string)
    requires |shown| > 2
    ensures Buffer(shown, 1, [Span(0, |shown|, shown, content)]).Deleted() == Buffer("", 1, [])
  {
    var b := Buffer(shown, 1, [Span(0, |shown|, shown, content)]);
    assert b.SpanToDelete() == Some(0);
    assert b.spans[..0] + b.spans[1..] == [];
  }

  lemma OutOfRangeSpanIsNotExpanded(shown: string, content: string)
    requires |shown| > 2 && shown[0] == '[' && shown[|shown| - 1] == ']'
    ensures Submit(shown, [Span(1, 1 + |shown|, shown, content)]) == shown
  {
    var span := Span(1, 1 + |shown|, shown, content);
    OneSpanSorts(span);
    assert ReplaceRef(shown, span) == shown;
    assert Trim(shown) == shown;
    ExpandLast(shown, [], span);
    assert [] + [span] == [span];
  }

  lemma PasteIntoEmpty(cursor: nat, text: string)
    requires '\r' !in text && ShouldCollapsePaste(text) && text != ""
    ensures var p := Placeholder(text);
            Buffer("", cursor, []).InsertPaste(text) == Buffer(p, cursor + |p|, [Span(cursor, cursor + |p|, p, text)])
  {
    hide Placeholder, ShouldCollapsePaste;
    ReplaceCrLfWithoutCr(text);
    assert NormalizePastedText(text) == text;
    var p := Placeholder(text);
    assert ShiftForInsert([], cursor, |p|) == [];
    OneSpanSorts(Span(cursor, cursor + |p|, p, text));
    assert "" + p + "" == p;
  }

  lemma OneSpanSorts(s: Span)
    ensures SortByStart([s]) == [s]
  {
    SortedStays([s]);
  }

  lemma ReachesFour(b0: Buffer, b1: Buffer, b2: Buffer, b3: Buffer, b4: Buffer, keys: seq<Key>)
    requires |keys| == 4
    requires b0.Ordered() && b1.Ordered() && b2.Ordered() && b3.Ordered()
    requires b0.Step(keys[0]) == b1 && b1.Step(keys[1]) == b2 && b2.Step(keys[2]) == b3 && b3.Step(keys[3]) == b4
    ensures Reaches(b0, keys, b4)
  {
    hide Buffer.Step;
    assert Reaches(b4, keys[1..][1..][1..][1..], b4);
    assert Reaches(b3, keys[1..][1..][1..], b4);
    assert Reaches(b2, keys[1..][1..], b4);
    assert Reaches(b1, keys[1..], b4);
  }
}
