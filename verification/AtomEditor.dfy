/** The plain editor that the input box of the terminal UI is meant to be: a line of atoms,
    where an atom is one character or one collapsed paste, with a cursor between two atoms
    (`offset == 0`) or, after a vertical move, strictly inside the placeholder of the paste
    that follows it. */
module AtomEditor {
  import opened Text

  datatype Atom = Char(ch: char) | Paste(content: string)

  /** `format_tui_pasted_content_placeholder`. */
  function Placeholder(content: string): (p: string)
    ensures |p| > 2 && p[0] == '[' && p[|p| - 1] == ']'
  {
    "[Pasted Content " + Digits(|content|) + " chars]"
  }

  /** The placeholder shows the number of characters of the paste, so pastes of one length look
      alike and pastes of different lengths do not. */
  lemma PlaceholderShowsLength(content: string, other: string)
    ensures var p := Placeholder(content);
            && |p| > 23 && p[..16] == "[Pasted Content " && p[|p| - 7..] == " chars]"
            && Decimal(p[16..|p| - 7]) == |content|
    ensures Placeholder(content) == Placeholder(other) <==> |content| == |other|
  {
    hide Decimal, Digits;
    DigitsDenote(|content|);
    DigitsDenote(|other|);
    var p, q := Placeholder(content), Placeholder(other);
    assert p[16..|p| - 7] == Digits(|content|) && q[16..|q| - 7] == Digits(|other|);
  }

  /** What an atom looks like in the buffer. */
  function Shown(a: Atom): (s: string)
    ensures s != ""
  {
    match a
    case Char(ch) => [ch]
    case Paste(content) => Placeholder(content)
  }

  function ShownAll(atoms: seq<Atom>): string {
    if atoms == [] then "" else Shown(atoms[0]) + ShownAll(atoms[1..])
  }

  /** What an atom stands for when the line is submitted. */
  function Meaning(a: Atom): string {
    match a
    case Char(ch) => [ch]
    case Paste(content) => content
  }

  function Flatten(atoms: seq<Atom>): string {
    if atoms == [] then "" else Meaning(atoms[0]) + Flatten(atoms[1..])
  }

  function Chars(text: string): seq<Atom> {
    seq(|text|, i requires 0 <= i < |text| => Char(text[i]))
  }

  predicate NonEmptyPastes(atoms: seq<Atom>) {
    forall a :: a in atoms && a.Paste? ==> a.content != ""
  }

  /** `text.replace("\r\n", "\n")`. */
  function ReplaceCrLf(text: string): string {
    if text == "" then ""
    else if |text| >= 2 && text[0] == '\r' && text[1] == '\n' then "\n" + ReplaceCrLf(text[2..])
    else [text[0]] + ReplaceCrLf(text[1..])
  }

  /** `text.replace('\r', "\n")`. */
  function ReplaceCr(text: string): (r: string)
    ensures |r| == |text|
    ensures forall i :: 0 <= i < |text| ==> r[i] == if text[i] == '\r' then '\n' else text[i]
  {
    seq(|text|, i requires 0 <= i < |text| => if text[i] == '\r' then '\n' else text[i])
  }

  function NormalizePastedText(text: string): string {
    ReplaceCr(ReplaceCrLf(text))
  }

  /** `text.split_whitespace().count()`: the number of maximal runs of other characters. */
  function WordCount(text: string): nat {
    if text == "" then 0
    else if !IsWhitespace(text[0]) && (|text| == 1 || IsWhitespace(text[1])) then 1 + WordCount(text[1..])
    else WordCount(text[1..])
  }

  const LONG_PASTE_WORD_THRESHOLD: nat := 1000
  const LONG_PASTE_CHAR_THRESHOLD: nat := 4096

  predicate ShouldCollapsePaste(text: string) {
    |text| >= LONG_PASTE_CHAR_THRESHOLD || WordCount(text) >= LONG_PASTE_WORD_THRESHOLD
  }

  datatype Plain = Plain(before: seq<Atom>, after: seq<Atom>, offset: nat) {
    predicate Ok() {
      && NonEmptyPastes(Atoms())
      && (offset > 0 ==> after != [] && offset < |Shown(after[0])|)
    }

    function Atoms(): seq<Atom> {
      before + after
    }

    /** Leaves the inside of a placeholder by its right end. */
    function Snapped(): Plain
      requires Ok()
    {
      if offset == 0 then this else Plain(before + [after[0]], after[1..], 0)
    }

    function Insert(atoms: seq<Atom>): Plain
      requires Ok()
    {
      Plain(Snapped().before + atoms, Snapped().after, 0)
    }

    function Backspace(): Plain
      requires Ok()
    {
      var p := Snapped();
      if p.before == [] then p else Plain(p.before[..|p.before| - 1], p.after, 0)
    }

    function Delete(): Plain
      requires Ok()
    {
      if after == [] then this else Plain(before, after[1..], 0)
    }

    function Left(): Plain
      requires Ok()
    {
      if offset > 0 || before == [] then Plain(before, after, 0)
      else Plain(before[..|before| - 1], [before[|before| - 1]] + after, 0)
    }

    function Right(): Plain
      requires Ok()
    {
      if after == [] then this else Plain(before + [after[0]], after[1..], 0)
    }
  }

  /** The editor over `atoms` whose cursor is at display index `column` of the buffer. */
  function PlainAt(atoms: seq<Atom>, column: nat): (p: Plain)
    requires column <= |ShownAll(atoms)|
  {
    if atoms == [] then Plain([], [], 0)
    else if column < |Shown(atoms[0])| then Plain([], atoms, column)
    else
      var rest := PlainAt(atoms[1..], column - |Shown(atoms[0])|);
      rest.(before := [atoms[0]] + rest.before)
  }

  datatype Key = Type(ch: char) | PasteText(text: string) | Backspace | Delete | Left | Right | Home | End | Jump(index: nat)

  function PasteAtoms(text: string): seq<Atom> {
    var normalized := NormalizePastedText(text);
    if ShouldCollapsePaste(normalized) then [Paste(normalized)] else Chars(normalized)
  }

  /** What a key may assume: a vertical move lands in the buffer, and so does the index that the
      cursor keeps when Delete removes the placeholder around it. */
  predicate KeyFits(p: Plain, key: Key)
    requires p.Ok()
  {
    && (key.Jump? ==> key.index <= |ShownAll(p.Atoms())|)
    && (key.Delete? && p.offset > 0 ==> |ShownAll(p.before)| + p.offset <= |ShownAll(p.Delete().Atoms())|)
  }

  /** One key on the plain editor. `Jump` is a vertical move that lands on a display index; it is
      the only key that can bring the cursor inside a placeholder from between two atoms. Delete
      takes away the atom around or behind the cursor, which keeps its display index. */
  function PlainStep(p: Plain, key: Key): Plain
    requires p.Ok() && KeyFits(p, key)
  {
    match key
    case Type(ch) => p.Insert([Char(ch)])
    case PasteText(text) => if text == "" then p else p.Insert(PasteAtoms(text))
    case Backspace => p.Backspace()
    case Delete =>
      if p.offset == 0 then p.Delete() else PlainAt(p.Delete().Atoms(), |ShownAll(p.before)| + p.offset)
    case Left => p.Left()
    case Right => p.Right()
    case Home => Plain([], p.Atoms(), 0)
    case End => Plain(p.Atoms(), [], 0)
    case Jump(index) => PlainAt(p.Atoms(), index)
  }

  // ---- normalisation of pasted text

  lemma {:induction false} ReplaceCrLfWithoutCr(text: string)
    requires '\r' !in text
    ensures ReplaceCrLf(text) == text
  {
    if text != "" {
      assert text[0] in text;
      assert forall c :: c in text[1..] ==> c in text;
      ReplaceCrLfWithoutCr(text[1..]);
    }
  }

  lemma NormalizeIsClean(text: string)
    ensures '\r' !in NormalizePastedText(text)
    ensures NormalizePastedText(NormalizePastedText(text)) == NormalizePastedText(text)
  {
    ReplaceCrLfWithoutCr(NormalizePastedText(text));
  }

  lemma {:induction false} ReplaceCrLfAt(a: string, b: string)
    ensures ReplaceCrLf(a + "\r\n" + b) == ReplaceCrLf(a) + "\n" + ReplaceCrLf(b)
    decreases |a|
  {
    var s := a + "\r\n" + b;
    if a == "" {
      assert s[2..] == b;
    } else if |a| >= 2 && a[0] == '\r' && a[1] == '\n' {
      assert s[2..] == a[2..] + "\r\n" + b;
      ReplaceCrLfAt(a[2..], b);
    } else {
      assert s[1..] == a[1..] + "\r\n" + b;
      ReplaceCrLfAt(a[1..], b);
    }
  }

  predicate HasCrLf(text: string) {
    exists i :: 0 <= i < |text| - 1 && text[i] == '\r' && text[i + 1] == '\n'
  }

  lemma {:induction false} ReplaceCrLfWithoutPair(text: string)
    requires !HasCrLf(text)
    ensures ReplaceCrLf(text) == text
  {
    if text != "" {
      assert forall i :: 0 <= i < |text| - 1 ==> text[1..][i] == text[i + 1];
      ReplaceCrLfWithoutPair(text[1..]);
    }
  }

  /** What a pasted line end becomes: a pair of carriage return and newline is one newline. */
  lemma NormalizeAtPair(a: string, b: string)
    ensures NormalizePastedText(a + "\r\n" + b) == NormalizePastedText(a) + "\n" + NormalizePastedText(b)
  {
    hide ReplaceCrLf;
    ReplaceCrLfAt(a, b);
  }

  /** Text without such a pair keeps its length, and each lone carriage return becomes a newline. */
  lemma NormalizeWithoutPair(text: string)
    requires !HasCrLf(text)
    ensures |NormalizePastedText(text)| == |text|
    ensures forall i :: 0 <= i < |text| ==> NormalizePastedText(text)[i] == if text[i] == '\r' then '\n' else text[i]
  {
    ReplaceCrLfWithoutPair(text);
  }

  // ---- counting words

  predicate AllWhitespace(s: string) {
    forall i :: 0 <= i < |s| ==> IsWhitespace(s[i])
  }

  predicate NoWhitespace(s: string) {
    forall i :: 0 <= i < |s| ==> !IsWhitespace(s[i])
  }

  lemma {:induction false} BlankHasNoWord(s: string)
    requires AllWhitespace(s)
    ensures WordCount(s) == 0
  {
    if s != "" { BlankHasNoWord(s[1..]); }
  }

  lemma {:induction false} OneWord(s: string)
    requires s != "" && NoWhitespace(s)
    ensures WordCount(s) == 1
  {
    hide IsWhitespace;
    if |s| > 1 { OneWord(s[1..]); }
  }

  /** Words add up wherever white space separates them. With the two lemmas before it this
      determines the count of every text. */
  lemma {:induction false} WordsAddUp(a: string, b: string)
    requires a != "" && b != "" ==> IsWhitespace(a[|a| - 1]) || IsWhitespace(b[0])
    ensures WordCount(a + b) == WordCount(a) + WordCount(b)
    decreases |a|
  {
    hide IsWhitespace;
    if a == "" {
      assert a + b == b;
    } else {
      assert (a + b)[1..] == a[1..] + b;
      WordsAddUp(a[1..], b);
    }
  }

  lemma NormalizeKeepsNonEmpty(text: string)
    requires text != ""
    ensures NormalizePastedText(text) != ""
  {
  }

  // ---- shown text of concatenations

  lemma {:induction false} ShownAllAppend(a: seq<Atom>, b: seq<Atom>)
    ensures ShownAll(a + b) == ShownAll(a) + ShownAll(b)
  {
    if a == [] {
      assert a + b == b;
    } else {
      assert (a + b)[1..] == a[1..] + b;
      ShownAllAppend(a[1..], b);
    }
  }

  lemma {:induction false} ShownAllChars(text: string)
    ensures ShownAll(Chars(text)) == text
    ensures Flatten(Chars(text)) == text
  {
    if text != "" {
      assert Chars(text)[1..] == Chars(text[1..]);
      ShownAllChars(text[1..]);
    }
  }

  lemma {:induction false} FlattenAppend(a: seq<Atom>, b: seq<Atom>)
    ensures Flatten(a + b) == Flatten(a) + Flatten(b)
  {
    if a == [] {
      assert a + b == b;
    } else {
      assert (a + b)[1..] == a[1..] + b;
      FlattenAppend(a[1..], b);
    }
  }

  lemma ShownAllCons(a: Atom, rest: seq<Atom>)
    ensures ShownAll([a] + rest) == Shown(a) + ShownAll(rest)
  {
    hide Shown;
    assert ([a] + rest)[1..] == rest;
  }

  lemma PlainAtCons(a: Atom, rest: seq<Atom>, column: nat)
    requires |Shown(a)| <= column <= |ShownAll([a] + rest)|
    ensures |ShownAll([a] + rest)| == |Shown(a)| + |ShownAll(rest)|
    ensures var q := PlainAt(rest, column - |Shown(a)|);
            PlainAt([a] + rest, column) == q.(before := [a] + q.before)
  {
    hide Shown;
    assert ([a] + rest)[1..] == rest;
  }

  predicate StandsAt(p: Plain, column: nat) {
    && |ShownAll(p.before)| + p.offset == column
    && (p.offset > 0 ==> p.after != [] && p.offset < |Shown(p.after[0])|)
  }

  lemma PlainAtHead(atoms: seq<Atom>, column: nat)
    requires atoms == [] || column < |Shown(atoms[0])|
    requires column <= |ShownAll(atoms)|
    ensures PlainAt(atoms, column).Atoms() == atoms && StandsAt(PlainAt(atoms, column), column)
  {
    hide Shown;
    assert ShownAll([]) == "";
  }

  lemma StandsAtCons(a: Atom, q: Plain, column: nat)
    requires StandsAt(q, column)
    ensures StandsAt(q.(before := [a] + q.before), |Shown(a)| + column)
  {
    hide Shown, ShownAll;
    ShownAllCons(a, q.before);
  }

  lemma {:induction false} PlainAtIsAt(atoms: seq<Atom>, column: nat)
    requires column <= |ShownAll(atoms)|
    ensures PlainAt(atoms, column).Atoms() == atoms && StandsAt(PlainAt(atoms, column), column)
  {
    hide Shown, ShownAll, PlainAt, StandsAt;
    if atoms == [] || column < |Shown(atoms[0])| {
      PlainAtHead(atoms, column);
    } else {
      var a, rest := atoms[0], atoms[1..];
      assert atoms == [a] + rest;
      PlainAtCons(a, rest, column);
      var q := PlainAt(rest, column - |Shown(a)|);
      PlainAtIsAt(rest, column - |Shown(a)|);
      StandsAtCons(a, q, column - |Shown(a)|);
      assert [a] + q.before + q.after == [a] + (q.before + q.after);
    }
  }

  lemma PlainAtOk(atoms: seq<Atom>, column: nat)
    requires NonEmptyPastes(atoms) && column <= |ShownAll(atoms)|
    ensures PlainAt(atoms, column).Ok()
  {
    hide ShownAll, Shown, PlainAt;
    PlainAtIsAt(atoms, column);
  }

  lemma DeleteOk(p: Plain)
    requires p.Ok()
    ensures p.Delete().Ok()
  {
    hide Shown;
  }

  lemma InsertOk(p: Plain, atoms: seq<Atom>)
    requires p.Ok() && NonEmptyPastes(atoms)
    ensures p.Insert(atoms).Ok()
  {
    hide Shown;
    assert NonEmptyPastes(p.Snapped().Atoms());
  }

  lemma MoveOk(p: Plain)
    requires p.Ok()
    ensures p.Backspace().Ok() && p.Left().Ok() && p.Right().Ok()
  {
    hide Shown;
  }

  /** Every key keeps the plain editor well formed; without vertical moves the cursor stays
      between atoms. */
  lemma PlainStepOk(p: Plain, key: Key)
    requires p.Ok() && KeyFits(p, key)
    ensures PlainStep(p, key).Ok()
    ensures p.offset == 0 && !key.Jump? ==> PlainStep(p, key).offset == 0
  {
    hide ShownAll, Shown, PlainAt;
    match key
    case Type(ch) =>
      InsertOk(p, [Char(ch)]);
    case PasteText(text) =>
      if text != "" {
        NormalizeKeepsNonEmpty(text);
        InsertOk(p, PasteAtoms(text));
      }
    case Delete =>
      DeleteOk(p);
      if p.offset > 0 {
        PlainAtOk(p.Delete().Atoms(), |ShownAll(p.before)| + p.offset);
      }
    case Jump(index) =>
      PlainAtOk(p.Atoms(), index);
    case _ =>
      MoveOk(p);
  }

  // ---- what the keys mean to each other

  /** Between two atoms: Backspace is Left and then Delete; Right takes Left back, and Left takes
      Right back; Backspace takes back typing a character. */
  lemma KeysMatch(p: Plain, ch: char)
    requires p.Ok() && p.offset == 0
    ensures p.Left().Ok() && p.Right().Ok() && p.Insert([Char(ch)]).Ok()
    ensures p.before != [] ==> p.Backspace() == p.Left().Delete() && p.Left().Right() == p
    ensures p.after != [] ==> p.Right().Left() == p && p.Right().Backspace() == p.Delete()
    ensures p.before == [] ==> p.Backspace() == p && p.Left() == p
    ensures p.after == [] ==> p.Delete() == p && p.Right() == p
    ensures p.Insert([Char(ch)]).Backspace() == p
  {
    hide Shown;
    MoveOk(p);
    InsertOk(p, [Char(ch)]);
  }

  /** A key changes the line only at the cursor: moving keeps it, and inserting puts the new
      atoms between those in front of the cursor and those behind it. */
  lemma KeysActAtCursor(p: Plain, atoms: seq<Atom>)
    requires p.Ok()
    ensures p.Left().Atoms() == p.Atoms() && p.Right().Atoms() == p.Atoms() && p.Snapped().Atoms() == p.Atoms()
    ensures p.Insert(atoms).before == p.Snapped().before + atoms && p.Insert(atoms).after == p.Snapped().after
    ensures p.Snapped().offset == 0 && (p.offset > 0 ==> |p.Snapped().before| == |p.before| + 1)
    ensures p.offset > 0 ==> p.Left() == Plain(p.before, p.after, 0) && p.Backspace().Atoms() == p.Delete().Atoms()
  {
    hide Shown;
  }

  // ---- when a paste is collapsed

  /** A single long word is collapsed from 4096 characters on. */
  lemma LongWordCollapses(text: string)
    requires text != "" && NoWhitespace(text)
    ensures ShouldCollapsePaste(text) <==> |text| >= 4096
  {
    OneWord(text);
  }

  /** `n` words of one character, each with a space behind it. */
  function ShortWords(n: nat): (text: string)
    ensures |text| == 2 * n
  {
    if n == 0 then "" else "a " + ShortWords(n - 1)
  }

  lemma {:induction false} ShortWordsCount(n: nat)
    ensures WordCount(ShortWords(n)) == n
  {
    if n > 0 {
      ShortWordsCount(n - 1);
      WordsAddUp("a ", ShortWords(n - 1));
      assert "a "[1..] == " " && " "[1..] == "";
    }
  }

  /** Many short words are collapsed from a thousand words on. */
  lemma ManyWordsCollapse(n: nat)
    ensures ShouldCollapsePaste(ShortWords(n)) <==> n >= 1000
  {
    ShortWordsCount(n);
  }
}
