/** Evidence lines: what cleaning takes away from a line and which path it leaves. */
module EvidenceLine {
  import opened Text
  import opened PathScope

  // ---- what cleaning removes

  /** Text without white space, as the paths of evidence lines are. */
  predicate IsToken(w: string) {
    w != "" && forall i :: 0 <= i < |w| ==> !IsWhitespace(w[i])
  }

  predicate HasPrefix(s: string) {
    exists i :: 0 <= i < |PREFIXES| && OccursAt(s, PREFIXES[i], 0)
  }

  predicate Occurs(s: string, n: string) {
    exists at :: 0 <= at <= |s| && OccursAt(s, n, at)
  }

  lemma {:induction false} PrefixAt(s: string, i: nat, j: nat)
    requires i <= j < |PREFIXES| && OccursAt(s, PREFIXES[j], 0)
    requires forall h :: i <= h < j ==> !OccursAt(s, PREFIXES[h], 0)
    ensures WithoutPrefix(s, PREFIXES[i..]) == Trim(s[|PREFIXES[j]|..])
    decreases j - i
  {
    hide OccursAt, Trim;
    assert PREFIXES[i..][0] == PREFIXES[i] && PREFIXES[i..][1..] == PREFIXES[i + 1..];
    if i < j { PrefixAt(s, i + 1, j); }
  }

  lemma {:induction false} NoPrefixFrom(s: string, i: nat)
    requires i <= |PREFIXES| && !HasPrefix(s)
    ensures WithoutPrefix(s, PREFIXES[i..]) == s
    decreases |PREFIXES| - i
  {
    hide OccursAt, Trim;
    if i < |PREFIXES| {
      assert PREFIXES[i..][0] == PREFIXES[i] && PREFIXES[i..][1..] == PREFIXES[i + 1..];
      NoPrefixFrom(s, i + 1);
    }
  }

  lemma {:induction false} MarkerAt(s: string, i: nat, j: nat, at: nat)
    requires i <= j < |MARKERS| && Find(s, MARKERS[j], 0) == Some(at)
    requires forall h :: i <= h < j ==> !Occurs(s, MARKERS[h])
    ensures at <= |s| && WithoutMarker(s, MARKERS[i..]) == Trim(s[..at])
    decreases j - i
  {
    hide Trim;
    assert MARKERS[i..][0] == MARKERS[i] && MARKERS[i..][1..] == MARKERS[i + 1..];
    if i < j {
      assert Find(s, MARKERS[i], 0) == None;
      MarkerAt(s, i + 1, j, at);
    }
  }

  /** No listed prefix starts another one. */
  lemma PrefixesDiffer(i: nat, j: nat, t: string)
    requires i < j < |PREFIXES|
    ensures !OccursAt(PREFIXES[j] + t, PREFIXES[i], 0)
  {
    var s := PREFIXES[j] + t;
    if i == 0 && j == 1 {
      assert s[18] == 'a' && PREFIXES[0][18] == 'f';
      assert |PREFIXES[0]| <= |s| ==> s[0..|PREFIXES[0]|][18] == s[18];
    } else {
      assert s[0] == PREFIXES[j][0] != PREFIXES[i][0];
      NotPrefix(s, PREFIXES[i]);
    }
  }

  /** A space, letters and `=`. */
  predicate IsMarker(m: string) {
    && |m| >= 6 && m[0] == ' ' && m[|m| - 1] == '='
    && (forall i :: 1 <= i < |m| ==> !IsWhitespace(m[i])) && m[1] != 'f' && m[1] != 'a'
  }

  /** Neither starts like the other. */
  predicate StartApart(m: string, n: string)
    requires |m| >= 3 && |n| >= 3
  {
    m[1] != n[1] || m[2] != n[2]
  }

  lemma MarkersDiffer(i: nat, j: nat)
    requires i < |MARKERS| && j < |MARKERS| && i != j
    ensures IsMarker(MARKERS[i]) && IsMarker(MARKERS[j]) && StartApart(MARKERS[i], MARKERS[j])
  {
    MarkerShape(i);
    MarkerShape(j);
  }

  lemma MarkerShape(j: nat)
    requires j < |MARKERS|
    ensures IsMarker(MARKERS[j])
  {
  }

  // ---- trimming

  lemma {:induction false} TrimEndFrom(a: string, b: string)
    requires a != "" && !IsWhitespace(a[|a| - 1])
    ensures TrimEnd(a + b) == a + TrimEnd(b)
    decreases |b|
  {
    var s := a + b;
    if b == "" {
      assert s == a && a + "" == a;
    } else {
      assert s[|s| - 1] == b[|b| - 1] && s[..|s| - 1] == a + b[..|b| - 1];
      if IsWhitespace(b[|b| - 1]) { TrimEndFrom(a, b[..|b| - 1]); }
    }
  }

  lemma {:induction false} TrimEndCuts(s: string) returns (k: nat)
    ensures k <= |s| && TrimEnd(s) == s[..k] && forall i :: k <= i < |s| ==> IsWhitespace(s[i])
    ensures k > 0 ==> !IsWhitespace(s[k - 1])
  {
    if s != "" && IsWhitespace(s[|s| - 1]) {
      k := TrimEndCuts(s[..|s| - 1]);
      assert s[..|s| - 1][..k] == s[..k];
    } else {
      k := |s|;
    }
  }

  lemma {:induction false} TrimStartBlank(gap: string, t: string)
    requires forall i :: 0 <= i < |gap| ==> IsWhitespace(gap[i])
    ensures TrimStart(gap + t) == TrimStart(t)
  {
    if gap == "" {
      assert gap + t == t;
    } else {
      assert (gap + t)[1..] == gap[1..] + t;
      TrimStartBlank(gap[1..], t);
    }
  }

  lemma TrimEndTwice(s: string)
    ensures TrimEnd(TrimEnd(s)) == TrimEnd(s)
  {
    var k := TrimEndCuts(s);
  }

  /** Trimming what starts with a character and has text up to `b` keeps all but the end. */
  lemma TrimFrom(a: string, b: string)
    requires a != "" && !IsWhitespace(a[0]) && !IsWhitespace(a[|a| - 1])
    ensures Trim(a + b) == a + TrimEnd(b)
  {
    assert (a + b)[0] == a[0];
    TrimEndFrom(a, b);
  }

  /** A marker ends in `=`, so trimming does not destroy one. */
  lemma OccursTrimmed(s: string, m: string)
    requires IsMarker(m)
    ensures Occurs(TrimEnd(s), m) <==> Occurs(s, m)
  {
    var k := TrimEndCuts(s);
    forall at | 0 <= at <= |s| && OccursAt(s, m, at) ensures at + |m| <= k && OccursAt(s[..k], m, at) {
      assert s[at..at + |m|][|m| - 1] == s[at + |m| - 1];
      assert s[..k][at..at + |m|] == s[at..at + |m|];
    }
    forall at | 0 <= at <= k && OccursAt(s[..k], m, at) ensures OccursAt(s, m, at) {
      assert s[..k][at..at + |m|] == s[at..at + |m|];
    }
  }

  // ---- markers behind a token

  lemma NotInToken(w: string, t: string, m: string, at: nat)
    requires IsToken(w) && IsMarker(m) && at < |w|
    ensures !OccursAt(w + t, m, at)
  {
    assert at + |m| <= |w + t| ==> (w + t)[at..at + |m|][0] == w[at];
  }

  /** The first occurrence of the marker behind a token is the one that follows it. */
  lemma FoundBehindToken(w: string, m: string, r: string)
    requires IsToken(w) && IsMarker(m)
    ensures Find(w + (m + r), m, 0) == Some(|w|)
  {
    hide IsToken, IsMarker, Find;
    var s := w + (m + r);
    assert s[|w|..|w| + |m|] == m;
    assert OccursAt(s, m, |w|);
    forall i: nat | i < |w| ensures !OccursAt(s, m, i) {
      NotInToken(w, m + r, m, i);
    }
  }

  lemma NotOnMarker(w: string, m: string, r: string, n: string, at: nat)
    requires IsMarker(m) && IsMarker(n) && StartApart(n, m) && |w| <= at < |w| + |m|
    ensures !OccursAt(w + (m + r), n, at)
  {
    var s := w + (m + r);
    assert s[at] == m[at - |w|];
    if at == |w| && |w| + 2 < |s| {
      assert s[at + 1] == m[1] && s[at + 2] == m[2];
    }
    assert at + |n| <= |s| ==> s[at..at + |n|][0] == s[at] && s[at..at + |n|][1] == s[at + 1] && s[at..at + |n|][2] == s[at + 2];
  }

  /** Another marker occurs there only in what follows. */
  lemma OtherMarkerBehind(w: string, m: string, r: string, n: string, at: nat)
    requires IsToken(w) && IsMarker(m) && IsMarker(n) && StartApart(n, m)
    ensures OccursAt(w + (m + r), n, at) ==> |w| + |m| <= at && OccursAt(r, n, at - |w| - |m|)
  {
    hide IsToken, IsMarker, StartApart;
    if at < |w| {
      NotInToken(w, m + r, n, at);
    } else if at < |w| + |m| {
      NotOnMarker(w, m, r, n, at);
    } else if at + |n| <= |w| + |m| + |r| {
      assert (w + (m + r))[at..at + |n|] == r[at - |w| - |m|..at - |w| - |m| + |n|];
    }
  }

  lemma OtherMarkerOccursIff(w: string, m: string, r: string, n: string)
    requires IsToken(w) && IsMarker(m) && IsMarker(n) && StartApart(n, m)
    ensures Occurs(w + (m + r), n) <==> Occurs(r, n)
  {
    hide IsToken, IsMarker, StartApart;
    var s := w + (m + r);
    forall at: nat | at <= |s| && OccursAt(s, n, at) ensures Occurs(r, n) {
      OtherMarkerBehind(w, m, r, n, at);
    }
    forall at: nat | at <= |r| && OccursAt(r, n, at) ensures Occurs(s, n) {
      assert s[|w| + |m| + at..|w| + |m| + at + |n|] == r[at..at + |n|];
      assert OccursAt(s, n, |w| + |m| + at);
    }
  }

  // ---- evidence lines

  /** The listed prefixes, and none. */
  predicate IsPrefix(prefix: string) {
    prefix == "" || exists i :: 0 <= i < |PREFIXES| && prefix == PREFIXES[i]
  }

  lemma PrefixShape(j: nat)
    requires j < |PREFIXES|
    ensures var p := PREFIXES[j]; p != "" && !IsWhitespace(p[0]) && !IsWhitespace(p[|p| - 1])
    ensures j >= 2 ==> forall i :: 0 <= i < |PREFIXES[j]| ==> PREFIXES[j][i] != ' '
    ensures j < 2 ==> |PREFIXES[j]| > 18 && PREFIXES[j][17] == ' ' && (PREFIXES[j][18] == 'f' || PREFIXES[j][18] == 'a')
    ensures j < 2 ==> forall i :: 0 <= i < 17 ==> PREFIXES[j][i] != ' '
  {
  }

  /** Behind a listed prefix only that one is dropped. */
  lemma PrefixDropped(j: nat, t: string)
    requires j < |PREFIXES|
    ensures WithoutPrefix(PREFIXES[j] + t, PREFIXES) == Trim(t)
  {
    hide OccursAt, Trim, WithoutPrefix;
    var s := PREFIXES[j] + t;
    forall h: nat | h < j ensures !OccursAt(s, PREFIXES[h], 0) {
      PrefixesDiffer(h, j, t);
    }
    PrefixStartsIt(PREFIXES[j], t);
    PrefixAt(s, 0, j);
    assert PREFIXES[0..] == PREFIXES;
  }

  lemma PrefixStartsIt(p: string, t: string)
    ensures OccursAt(p + t, p, 0) && (p + t)[|p|..] == t
  {
  }

  /** A token that starts with no listed prefix still does not when a marker follows. */
  lemma NoPrefixWithMarker(w: string, m: string, r: string)
    requires IsToken(w) && !HasPrefix(w) && IsMarker(m)
    ensures !HasPrefix(w + (m + r))
  {
    var s := w + (m + r);
    forall j: nat | j < |PREFIXES| ensures !OccursAt(s, PREFIXES[j], 0) {
      NotPrefixWithMarker(w, m, r, j);
    }
  }

  lemma NotPrefixWithMarker(w: string, m: string, r: string, j: nat)
    requires IsToken(w) && !HasPrefix(w) && IsMarker(m) && j < |PREFIXES|
    ensures !OccursAt(w + (m + r), PREFIXES[j], 0)
  {
    hide IsWhitespace;
    var s, p := w + (m + r), PREFIXES[j];
    PrefixShape(j);
    assert !OccursAt(w, p, 0);
    if |p| <= |w| {
      assert s[0..|p|] == w[0..|p|];
    } else if |p| <= |s| {
      TokenHasNoSpace(w);
      assert s[|w|] == ' ' && s[0..|p|][|w|] == s[|w|];
      if |w| == 17 && |p| > 18 {
        assert s[18] == m[1] && s[0..|p|][18] == s[18];
      } else if |w| > 17 && |p| > 18 {
        assert s[17] == w[17] && s[0..|p|][17] == s[17];
      }
    }
  }

  lemma TokenHasNoSpace(w: string)
    requires IsToken(w)
    ensures forall i :: 0 <= i < |w| ==> w[i] != ' '
    ensures ' ' !in w && Trim(w) == w
  {
    TrimWord(w);
  }

  /** What is left of a line before quotes and components are looked at. */
  function Cut(value: string): string {
    WithoutMarker(WithoutPrefix(Trim(value), PREFIXES), MARKERS)
  }

  function Finish(cut: string): string {
    Normalized(ForwardSlashes(TrimQuotes(cut)))
  }

  lemma CleanIs(value: string)
    ensures Clean(value) == Finish(Cut(value))
  {
    hide Normalized, TrimQuotes, WithoutMarker, WithoutPrefix, Trim;
  }

  lemma LineTrimmed(prefix: string, w: string, m: string, rest: string)
    requires IsToken(w) && IsMarker(m)
    requires prefix != "" ==> !IsWhitespace(prefix[0])
    ensures Trim(prefix + (w + (m + rest))) == prefix + (w + (m + TrimEnd(rest)))
    ensures TrimEnd(TrimEnd(rest)) == TrimEnd(rest)
  {
    hide Trim, TrimEnd;
    var a := prefix + (w + m);
    assert prefix + (w + (m + rest)) == a + rest;
    assert prefix + (w + (m + TrimEnd(rest))) == a + TrimEnd(rest);
    TrimFrom(a, rest);
    TrimEndTwice(rest);
  }

  /** With or without a prefix, the token and what follows it are left. */
  lemma PrefixGone(prefix: string, w: string, k: nat, rest: string)
    requires IsPrefix(prefix) && IsToken(w) && !HasPrefix(w) && k < |MARKERS|
    ensures Cut(prefix + (w + (MARKERS[k] + rest))) == WithoutMarker(w + (MARKERS[k] + TrimEnd(rest)), MARKERS)
  {
    hide IsToken, IsMarker, HasPrefix, Trim, TrimEnd, WithoutPrefix, WithoutMarker;
    var m, r := MARKERS[k], TrimEnd(rest);
    MarkerShape(k);
    if prefix == "" {
      LineTrimmed("", w, m, rest);
      NoPrefixWithMarker(w, m, r);
      NoPrefixFrom(w + (m + r), 0);
      assert PREFIXES[0..] == PREFIXES;
      assert "" + (w + (m + rest)) == w + (m + rest) && "" + (w + (m + r)) == w + (m + r);
    } else {
      var j: nat :| j < |PREFIXES| && prefix == PREFIXES[j];
      PrefixShape(j);
      LineTrimmed(prefix, w, m, rest);
      PrefixDropped(j, w + (m + r));
      LineTrimmed("", w, m, r);
      assert "" + (w + (m + r)) == w + (m + r);
    }
  }

  lemma NoEarlierMarker(w: string, k: nat, r: string)
    requires IsToken(w) && k < |MARKERS|
    requires forall j: nat :: j < k ==> !Occurs(r, MARKERS[j])
    ensures WithoutMarker(w + (MARKERS[k] + r), MARKERS) == w
  {
    hide IsToken, IsMarker, Trim, WithoutMarker, Find, Occurs, StartApart;
    var s := w + (MARKERS[k] + r);
    MarkerShape(k);
    FoundBehindToken(w, MARKERS[k], r);
    forall j: nat | j < k ensures !Occurs(s, MARKERS[j]) {
      MarkersDiffer(j, k);
      OtherMarkerOccursIff(w, MARKERS[k], r, MARKERS[j]);
    }
    MarkerAt(s, 0, k, |w|);
    assert MARKERS[0..] == MARKERS && s[..|w|] == w;
    TokenHasNoSpace(w);
  }

  lemma FirstEarlier(k: nat, r: string) returns (j: nat)
    requires k < |MARKERS| && exists i: nat :: i < k && Occurs(r, MARKERS[i])
    ensures j < k && Occurs(r, MARKERS[j]) && forall h: nat :: h < j ==> !Occurs(r, MARKERS[h])
  {
    hide Occurs;
    j := 0;
    while !Occurs(r, MARKERS[j])
      invariant j < k && forall h: nat :: h < j ==> !Occurs(r, MARKERS[h])
      decreases k - j
    {
      j := j + 1;
    }
  }

  lemma EarlierMarkerCuts(w: string, k: nat, r: string)
    requires IsToken(w) && k < |MARKERS|
    requires exists j: nat :: j < k && Occurs(r, MARKERS[j])
    ensures ' ' in WithoutMarker(w + (MARKERS[k] + r), MARKERS)
  {
    hide IsToken, Trim, WithoutMarker, Find, Occurs, StartApart;
    var m := MARKERS[k];
    var s := w + (m + r);
    var j := FirstEarlier(k, r);
    MarkerShape(k);
    forall h: nat | h <= j ensures Occurs(s, MARKERS[h]) <==> Occurs(r, MARKERS[h]) {
      MarkersDiffer(h, k);
      OtherMarkerOccursIff(w, m, r, MARKERS[h]);
    }
    MarkersDiffer(j, k);
    var at := FoundWhereOccurs(s, MARKERS[j]);
    OtherMarkerBehind(w, m, r, MARKERS[j], at);
    MarkerAt(s, 0, j, at);
    assert MARKERS[0..] == MARKERS;
    CutKeepsMarker(w, m, r, at);
  }

  lemma FoundWhereOccurs(s: string, m: string) returns (at: nat)
    requires Occurs(s, m)
    ensures Find(s, m, 0) == Some(at) && OccursAt(s, m, at) && at <= |s|
  {
    at := Find(s, m, 0).value;
  }

  lemma CutKeepsMarker(w: string, m: string, r: string, at: nat)
    requires IsToken(w) && IsMarker(m) && |w| + |m| <= at <= |w| + |m| + |r|
    ensures ' ' in Trim((w + (m + r))[..at])
  {
    hide Trim, TrimEnd;
    var cut := r[..at - |w| - |m|];
    assert (w + (m + r))[..at] == (w + m) + cut;
    TrimFrom(w + m, cut);
    assert ((w + m) + TrimEnd(cut))[|w|] == ' ';
  }

  // ---- no space is lost behind the cut

  lemma {:induction false} InJoin(parts: seq<string>, c: char)
    requires c != '/'
    ensures c in Join(parts) <==> exists p :: p in parts && c in p
  {
    if |parts| == 1 {
      assert parts[0] in parts;
    } else if parts != [] {
      InJoin(parts[1..], c);
      assert parts == [parts[0]] + parts[1..];
    }
  }

  lemma {:induction false} InKeptParts(parts: seq<string>)
    ensures forall p :: p in KeptParts(parts) <==> p in parts && p != "" && p != "."
  {
    if parts != [] {
      InKeptParts(parts[1..]);
      assert parts == [parts[0]] + parts[1..];
    }
  }

  lemma {:induction false} TrimEndSlashesKeeps(s: string, c: char)
    requires c != '/'
    ensures c in TrimEndSlashes(s) <==> c in s
  {
    if s != "" && s[|s| - 1] == '/' {
      TrimEndSlashesKeeps(s[..|s| - 1], c);
      assert s == s[..|s| - 1] + [s[|s| - 1]];
    }
  }

  lemma {:induction false} TrimQuotesKeeps(s: string, c: char)
    requires !IsQuote(c)
    ensures c in TrimQuotes(s) <==> c in s
    decreases |s|
  {
    if s != "" && IsQuote(s[0]) {
      TrimQuotesKeeps(s[1..], c);
      assert s == [s[0]] + s[1..];
    } else if s != "" && IsQuote(s[|s| - 1]) {
      TrimQuotesKeeps(s[..|s| - 1], c);
      assert s == s[..|s| - 1] + [s[|s| - 1]];
    }
  }

  lemma SpaceInForwardSlashes(s: string)
    ensures ' ' in ForwardSlashes(s) <==> ' ' in s
  {
    var f := ForwardSlashes(s);
    if ' ' in s {
      var i :| 0 <= i < |s| && s[i] == ' ';
      assert f[i] == ' ';
    }
  }

  lemma SpaceInNormalized(s: string)
    ensures ' ' in Normalized(s) <==> ' ' in s
  {
    hide Split, Join, KeptParts, TrimEndSlashes;
    var kept := Join(KeptParts(Split(s)));
    JoinSplit(s);
    InJoin(Split(s), ' ');
    InJoin(KeptParts(Split(s)), ' ');
    InKeptParts(Split(s));
    TrimEndSlashesKeeps(kept, ' ');
    TrimEndSlashesKeeps("/" + kept, ' ');
  }

  lemma FinishKeepsSpace(s: string)
    ensures ' ' in Finish(s) <==> ' ' in s
  {
    hide Normalized, ForwardSlashes, TrimQuotes;
    TrimQuotesKeeps(s, ' ');
    SpaceInForwardSlashes(TrimQuotes(s));
    SpaceInNormalized(ForwardSlashes(TrimQuotes(s)));
  }

  // ---- the results

  lemma CutToken(prefix: string, w: string)
    requires IsPrefix(prefix) && IsToken(w) && !HasPrefix(w)
    ensures Cut(prefix + w) == w
  {
    hide HasPrefix, Trim, WithoutPrefix, WithoutMarker;
    NoMarkerInToken(w);
    TokenHasNoSpace(w);
    if prefix == "" {
      NoPrefixFrom(w, 0);
      assert PREFIXES[0..] == PREFIXES;
      assert "" + w == w;
    } else {
      var j: nat :| j < |PREFIXES| && prefix == PREFIXES[j];
      PrefixShape(j);
      TrimWord(prefix + w);
      PrefixDropped(j, w);
    }
  }

  lemma NoMarkerInToken(w: string)
    requires IsToken(w)
    ensures WithoutMarker(w, MARKERS) == w
  {
    hide IsMarker, Trim;
    TokenHasNoSpace(w);
    NoMarkerFrom(w, 0);
    assert MARKERS[0..] == MARKERS;
  }

  lemma {:induction false} NoMarkerFrom(w: string, i: nat)
    requires ' ' !in w && i <= |MARKERS|
    ensures WithoutMarker(w, MARKERS[i..]) == w
    decreases |MARKERS| - i
  {
    hide Trim;
    if i < |MARKERS| {
      assert MARKERS[i..][0] == MARKERS[i] && MARKERS[i..][1..] == MARKERS[i + 1..];
      MarkerShape(i);
      NotInside(w, MARKERS[i]);
      assert Find(w, MARKERS[i], 0) == None;
      NoMarkerFrom(w, i + 1);
    }
  }

  /** A listed prefix in front of a path without white space and without such a prefix of its
      own is dropped. */
  lemma CleanDropsPrefix(prefix: string, w: string)
    requires IsPrefix(prefix) && IsToken(w) && !HasPrefix(w)
    ensures Clean(prefix + w) == Clean(w) == Finish(w)
  {
    hide Clean, Cut, Finish, HasPrefix, IsToken;
    CutToken(prefix, w);
    CutToken("", w);
    assert "" + w == w;
    CleanIs(prefix + w);
    CleanIs(w);
  }

  /** Behind the path a marker cuts off everything else, exactly when no marker that is listed
      before it follows: those are looked for first, in the whole line. */
  lemma CleanCutsAtMarkerIff(prefix: string, w: string, k: nat, rest: string)
    requires IsPrefix(prefix) && IsToken(w) && !HasPrefix(w) && k < |MARKERS|
    ensures Clean(prefix + (w + (MARKERS[k] + rest))) == Clean(w) <==> forall j: nat :: j < k ==> !Occurs(rest, MARKERS[j])
  {
    hide Clean, Cut, Finish, HasPrefix, IsToken, IsPrefix, Occurs, TrimEnd, WithoutMarker;
    var value := prefix + (w + (MARKERS[k] + rest));
    var r := TrimEnd(rest);
    CleanDropsPrefix(prefix, w);
    CleanIs(value);
    PrefixGone(prefix, w, k, rest);
    forall j: nat | j < k ensures Occurs(r, MARKERS[j]) <==> Occurs(rest, MARKERS[j]) {
      MarkerShape(j);
      OccursTrimmed(rest, MARKERS[j]);
    }
    if forall j: nat :: j < k ==> !Occurs(r, MARKERS[j]) {
      NoEarlierMarker(w, k, r);
    } else {
      EarlierMarkerCuts(w, k, r);
      FinishKeepsSpace(Cut(value));
      FinishKeepsSpace(w);
      TokenHasNoSpace(w);
    }
  }

  /** Quotes and separators around a path are dropped. */
  lemma QuotesGone(open: string, p: string, close: string)
    requires p != "" && !IsQuote(p[0]) && !IsQuote(p[|p| - 1])
    requires forall i :: 0 <= i < |open| ==> IsQuote(open[i])
    requires forall i :: 0 <= i < |close| ==> IsQuote(close[i])
    ensures TrimQuotes(open + (p + close)) == p
  {
    hide TrimQuotes;
    QuotesInFront(open, p + close);
    QuotesBehind(p, close);
  }

  lemma {:induction false} QuotesInFront(open: string, t: string)
    requires forall i :: 0 <= i < |open| ==> IsQuote(open[i])
    ensures TrimQuotes(open + t) == TrimQuotes(t)
  {
    if open == "" {
      assert open + t == t;
    } else {
      assert (open + t)[1..] == open[1..] + t;
      QuotesInFront(open[1..], t);
    }
  }

  lemma {:induction false} QuotesBehind(p: string, close: string)
    requires p != "" && !IsQuote(p[0]) && !IsQuote(p[|p| - 1])
    requires forall i :: 0 <= i < |close| ==> IsQuote(close[i])
    ensures TrimQuotes(p + close) == p
    decreases |close|
  {
    if close == "" {
      assert p + close == p;
    } else {
      assert (p + close)[..|p + close| - 1] == p + close[..|close| - 1];
      QuotesBehind(p, close[..|close| - 1]);
    }
  }

  /** A path as cleaning leaves it, without backslashes and without quotes at its ends. */
  predicate IsPlainPath(p: string) {
    IsToken(p) && Normal(p) && '\\' !in p && !IsQuote(p[0]) && !IsQuote(p[|p| - 1])
  }

  lemma NormalizedKeepsNormal(p: string)
    requires Normal(p)
    ensures Normalized(p) == p
  {
    hide Split, Join;
    var parts := Split(p);
    JoinSplit(p);
    SplitHasNoSlash(p);
    NormalStart(p);
    if parts[0] == "" {
      var rest := parts[1..];
      assert parts == [""] + rest;
      JoinEmptyFirst(rest);
      KeptAll(rest);
      assert KeptParts(parts) == [] + KeptParts(rest) == rest;
      JoinEndsWithoutSlash(rest);
    } else {
      KeptAll(parts);
      JoinEndsWithoutSlash(parts);
    }
  }

  lemma {:induction false} KeptAll(parts: seq<string>)
    requires forall i :: 0 <= i < |parts| ==> parts[i] != "" && parts[i] != "."
    ensures KeptParts(parts) == parts
  {
    if parts != [] {
      KeptAll(parts[1..]);
      assert parts == [parts[0]] + parts[1..];
    }
  }

  lemma NormalStart(p: string)
    requires Normal(p)
    ensures p != "" && (Split(p)[0] == "" <==> p[0] == '/')
  {
  }

  lemma ForwardSlashesStays(p: string)
    requires '\\' !in p
    ensures ForwardSlashes(p) == p
  {
    forall i | 0 <= i < |p| ensures ForwardSlashes(p)[i] == p[i] {
      assert p[i] in p;
    }
  }

  /** Prefix, quotes and everything behind the first listed marker go, and the path stays. */
  lemma CleanFindsPath(prefix: string, open: string, p: string, close: string, k: nat, rest: string)
    requires IsPrefix(prefix) && IsPlainPath(p) && k < |MARKERS|
    requires forall i :: 0 <= i < |open| ==> IsQuote(open[i])
    requires forall i :: 0 <= i < |close| ==> IsQuote(close[i])
    requires !HasPrefix(open + (p + close))
    ensures Clean(prefix + (open + (p + close))) == p
    ensures Clean(prefix + ((open + (p + close)) + (MARKERS[k] + rest))) == p
       <==> forall j: nat :: j < k ==> !Occurs(rest, MARKERS[j])
  {
    hide Clean, HasPrefix, IsPrefix, Occurs, Normal, Normalized, TrimQuotes, ForwardSlashes;
    var w := open + (p + close);
    QuotesAreToken(open, p, close);
    CleanDropsPrefix(prefix, w);
    CleanCutsAtMarkerIff(prefix, w, k, rest);
    QuotesGone(open, p, close);
    ForwardSlashesStays(p);
    NormalizedKeepsNormal(p);
  }

  lemma QuotesAreToken(open: string, p: string, close: string)
    requires IsToken(p)
    requires forall i :: 0 <= i < |open| ==> IsQuote(open[i])
    requires forall i :: 0 <= i < |close| ==> IsQuote(close[i])
    ensures IsToken(open + (p + close))
  {
  }

  /** A path that is already clean stays as it is. */
  lemma CleanKeepsPlainPath(p: string)
    requires IsPlainPath(p) && !HasPrefix(p)
    ensures Clean(p) == p
  {
    hide Clean, HasPrefix, IsPlainPath;
    assert "" + ("" + (p + "")) == p && "" + (p + "") == p;
    CleanFindsPath("", "", p, "", 0, "");
  }

  lemma SmallPath()
    ensures IsPlainPath("x") && !HasPrefix("x")
  {
    SplitPart("x");
    forall j: nat | j < |PREFIXES| ensures !OccursAt("x", PREFIXES[j], 0) {
      assert |PREFIXES[j]| > 1;
    }
  }

  /** A line whose markers are out of their order is not cut at its path: the marker that is
      listed first is looked for first. */
  lemma MarkersOutOfOrder()
    ensures Clean("x" + (" status=" + "ok source=y")) != Clean("x") == "x"
  {
    hide Clean, HasPrefix, IsPlainPath, Occurs;
    SmallPath();
    CleanKeepsPlainPath("x");
    SourceOccurs();
    PlainPathIsToken("x");
    assert "" + ("x" + (" status=" + "ok source=y")) == "x" + (" status=" + "ok source=y");
    CleanCutsAtMarkerIff("", "x", 4, "ok source=y");
  }

  lemma PlainPathIsToken(p: string)
    requires IsPlainPath(p)
    ensures IsToken(p)
  {
  }

  lemma SourceOccurs()
    ensures Occurs("ok source=y", MARKERS[0]) && MARKERS[4] == " status="
  {
    assert OccursAt("ok source=y", " source=", 2);
  }

  // ---- backslashes

  lemma {:induction false} ForwardTrimStart(s: string)
    ensures TrimStart(ForwardSlashes(s)) == ForwardSlashes(TrimStart(s))
  {
    if s != "" && IsWhitespace(s[0]) {
      assert ForwardSlashes(s)[1..] == ForwardSlashes(s[1..]);
      ForwardTrimStart(s[1..]);
    }
  }

  lemma {:induction false} ForwardTrimEnd(s: string)
    ensures TrimEnd(ForwardSlashes(s)) == ForwardSlashes(TrimEnd(s))
  {
    if s != "" && IsWhitespace(s[|s| - 1]) {
      assert ForwardSlashes(s)[..|s| - 1] == ForwardSlashes(s[..|s| - 1]);
      ForwardTrimEnd(s[..|s| - 1]);
    }
  }

  lemma ForwardTrim(s: string)
    ensures Trim(ForwardSlashes(s)) == ForwardSlashes(Trim(s))
  {
    hide ForwardSlashes, TrimStart, TrimEnd;
    ForwardTrimStart(s);
    ForwardTrimEnd(TrimStart(s));
  }

  predicate NoSlashes(n: string) {
    forall i :: 0 <= i < |n| ==> n[i] != '/' && n[i] != '\\'
  }

  lemma ForwardIs(u: string, n: string)
    requires NoSlashes(n)
    ensures ForwardSlashes(u) == n <==> u == n
  {
    if ForwardSlashes(u) == n {
      forall i | 0 <= i < |u| ensures u[i] == n[i] {
        assert ForwardSlashes(u)[i] == n[i];
      }
    }
  }

  lemma ForwardOccurs(s: string, n: string, at: nat)
    requires NoSlashes(n)
    ensures OccursAt(ForwardSlashes(s), n, at) <==> OccursAt(s, n, at)
  {
    if at + |n| <= |s| {
      assert ForwardSlashes(s)[at..at + |n|] == ForwardSlashes(s[at..at + |n|]);
      ForwardIs(s[at..at + |n|], n);
    }
  }

  lemma {:induction false} ForwardFind(s: string, n: string, from: nat)
    requires NoSlashes(n) && from <= |s|
    ensures Find(ForwardSlashes(s), n, from) == Find(s, n, from)
    decreases |s| - from
  {
    hide OccursAt, NoSlashes, ForwardSlashes;
    ForwardOccurs(s, n, from);
    if from < |s| && !OccursAt(s, n, from) { ForwardFind(s, n, from + 1); }
  }

  lemma {:induction false} ForwardPrefix(s: string, prefixes: seq<string>)
    requires forall i :: 0 <= i < |prefixes| ==> NoSlashes(prefixes[i])
    ensures WithoutPrefix(ForwardSlashes(s), prefixes) == ForwardSlashes(WithoutPrefix(s, prefixes))
  {
    hide Trim;
    if prefixes != [] {
      var n := prefixes[0];
      ForwardOccurs(s, n, 0);
      if OccursAt(s, n, 0) {
        assert ForwardSlashes(s)[|n|..] == ForwardSlashes(s[|n|..]);
        ForwardTrim(s[|n|..]);
      } else {
        ForwardPrefix(s, prefixes[1..]);
      }
    }
  }

  lemma {:induction false} ForwardMarker(s: string, markers: seq<string>)
    requires forall i :: 0 <= i < |markers| ==> NoSlashes(markers[i])
    ensures WithoutMarker(ForwardSlashes(s), markers) == ForwardSlashes(WithoutMarker(s, markers))
  {
    hide Trim, NoSlashes;
    if markers != [] {
      ForwardFind(s, markers[0], 0);
      match Find(s, markers[0], 0) {
        case Some(i) =>
          assert ForwardSlashes(s)[..i] == ForwardSlashes(s[..i]);
          ForwardTrim(s[..i]);
        case None =>
          ForwardMarker(s, markers[1..]);
      }
    }
  }

  lemma {:induction false} ForwardTrimQuotes(s: string)
    ensures TrimQuotes(ForwardSlashes(s)) == ForwardSlashes(TrimQuotes(s))
    decreases |s|
  {
    if s != "" && IsQuote(s[0]) {
      assert ForwardSlashes(s)[1..] == ForwardSlashes(s[1..]);
      ForwardTrimQuotes(s[1..]);
    } else if s != "" && IsQuote(s[|s| - 1]) {
      assert ForwardSlashes(s)[..|s| - 1] == ForwardSlashes(s[..|s| - 1]);
      ForwardTrimQuotes(s[..|s| - 1]);
    }
  }

  lemma ForwardTwice(s: string)
    ensures ForwardSlashes(ForwardSlashes(s)) == ForwardSlashes(s)
  {
  }

  lemma PrefixesHaveNoSlashes(i: nat)
    requires i < |PREFIXES|
    ensures NoSlashes(PREFIXES[i])
  {
  }

  lemma MarkersHaveNoSlashes(i: nat)
    requires i < |MARKERS|
    ensures NoSlashes(MARKERS[i])
  {
  }

  lemma ListsHaveNoSlashes()
    ensures forall i :: 0 <= i < |PREFIXES| ==> NoSlashes(PREFIXES[i])
    ensures forall i :: 0 <= i < |MARKERS| ==> NoSlashes(MARKERS[i])
  {
    hide NoSlashes;
    forall i: nat | i < |PREFIXES| ensures NoSlashes(PREFIXES[i]) {
      PrefixesHaveNoSlashes(i);
    }
    forall i: nat | i < |MARKERS| ensures NoSlashes(MARKERS[i]) {
      MarkersHaveNoSlashes(i);
    }
  }

  lemma CleanForward(value: string)
    ensures Clean(ForwardSlashes(value)) == Clean(value)
  {
    hide ForwardSlashes, Trim, WithoutPrefix, WithoutMarker, TrimQuotes, Normalized;
    var trimmed := Trim(value);
    var left := WithoutPrefix(trimmed, PREFIXES);
    var cut := WithoutMarker(left, MARKERS);
    ListsHaveNoSlashes();
    ForwardTrim(value);
    ForwardPrefix(trimmed, PREFIXES);
    ForwardMarker(left, MARKERS);
    ForwardTrimQuotes(cut);
    ForwardTwice(TrimQuotes(cut));
  }

  /** A backslash anywhere counts as a slash. */
  lemma CleanTakesBackslashes(a: string, b: string)
    ensures Clean(a + "\\" + b) == Clean(a + "/" + b)
  {
    hide Clean;
    assert ForwardSlashes(a + "\\" + b) == ForwardSlashes(a + "/" + b);
    CleanForward(a + "\\" + b);
    CleanForward(a + "/" + b);
  }

  /** White space around the whole line counts for nothing. */
  lemma CleanIgnoresOuterSpace(gap: string, value: string, tail: string)
    requires forall i :: 0 <= i < |gap| ==> IsWhitespace(gap[i])
    requires forall i :: 0 <= i < |tail| ==> IsWhitespace(tail[i])
    ensures Clean(gap + (value + tail)) == Clean(value)
  {
    hide WithoutPrefix, WithoutMarker, TrimQuotes, Normalized;
    TrimIgnores(gap, value, tail);
  }

  lemma TrimIgnores(gap: string, value: string, tail: string)
    requires forall i :: 0 <= i < |gap| ==> IsWhitespace(gap[i])
    requires forall i :: 0 <= i < |tail| ==> IsWhitespace(tail[i])
    ensures Trim(gap + (value + tail)) == Trim(value)
  {
    hide TrimEnd;
    TrimStartBlank(gap, value + tail);
    var k := TrimStartIsSuffix(value);
    if k < |value| {
      assert value + tail == value[..k] + (value[k..] + tail);
      TrimStartBlank(value[..k], value[k..] + tail);
      assert (value[k..] + tail)[0] == value[k];
      TrimEndBlank(value[k..], tail);
    } else {
      assert value[k..] == "";
      TrimStartBlank(value + tail, "");
      assert (value + tail) + "" == value + tail;
    }
  }

  lemma {:induction false} TrimEndBlank(s: string, tail: string)
    requires forall i :: 0 <= i < |tail| ==> IsWhitespace(tail[i])
    ensures TrimEnd(s + tail) == TrimEnd(s)
    decreases |tail|
  {
    if tail == "" {
      assert s + tail == s;
    } else {
      assert (s + tail)[..|s + tail| - 1] == s + tail[..|tail| - 1];
      TrimEndBlank(s, tail[..|tail| - 1]);
    }
  }
}
