/** Matching an evidence path against a target path: a string search whose hits must lie on
    path boundaries. */
module PathScope {
  import opened Text

  // ---- splitting and joining

  /** `s.split('/')`. */
  function Split(s: string): (parts: seq<string>)
    ensures parts != []
  {
    if s == "" then [""]
    else if s[0] == '/' then [""] + Split(s[1..])
    else var rest := Split(s[1..]); [[s[0]] + rest[0]] + rest[1..]
  }

  /** `parts.join("/")`. */
  function Join(parts: seq<string>): string {
    if parts == [] then "" else if |parts| == 1 then parts[0] else parts[0] + "/" + Join(parts[1..])
  }

  lemma JoinPrepend(c: char, rest: seq<string>)
    requires rest != []
    ensures Join([[c] + rest[0]] + rest[1..]) == [c] + Join(rest)
  {
    if |rest| > 1 {
      assert ([[c] + rest[0]] + rest[1..])[1..] == rest[1..];
      Assoc([c], rest[0], "/");
      Assoc([c], rest[0] + "/", Join(rest[1..]));
    }
  }

  lemma {:induction false} JoinSplit(s: string)
    ensures Join(Split(s)) == s
  {
    if s != "" {
      hide Join;
      JoinSplit(s[1..]);
      assert s == [s[0]] + s[1..];
      if s[0] == '/' {
        JoinEmptyFirst(Split(s[1..]));
      } else {
        JoinPrepend(s[0], Split(s[1..]));
      }
    }
  }

  lemma JoinEmptyFirst(rest: seq<string>)
    requires rest != []
    ensures Join([""] + rest) == "/" + Join(rest)
  {
    assert ([""] + rest)[1..] == rest;
    assert "" + "/" == "/";
  }

  lemma {:induction false} SplitAtSlash(a: string, b: string)
    ensures Split(a + "/" + b) == Split(a) + Split(b)
  {
    var s := a + "/" + b;
    if a == "" {
      assert s[1..] == b;
    } else {
      assert s[0] == a[0] && s[1..] == a[1..] + "/" + b;
      SplitAtSlash(a[1..], b);
    }
  }

  lemma {:induction false} JoinAppend(a: seq<string>, b: seq<string>)
    requires a != [] && b != []
    ensures Join(a + b) == Join(a) + "/" + Join(b)
  {
    if |a| == 1 {
      assert (a + b)[1..] == b;
    } else {
      assert (a + b)[1..] == a[1..] + b;
      JoinAppend(a[1..], b);
      assert a[0] + "/" + (Join(a[1..]) + "/" + Join(b)) == a[0] + "/" + Join(a[1..]) + "/" + Join(b);
    }
  }

  lemma {:induction false} SplitPart(s: string)
    requires '/' !in s
    ensures Split(s) == [s]
  {
    if s != "" {
      assert s[0] in s && forall c :: c in s[1..] ==> c in s;
      SplitPart(s[1..]);
      assert [s[0]] + s[1..] == s;
    }
  }

  lemma {:induction false} SplitJoin(parts: seq<string>)
    requires parts != [] && forall p :: p in parts ==> '/' !in p
    ensures Split(Join(parts)) == parts
  {
    assert parts[0] in parts;
    SplitPart(parts[0]);
    if |parts| > 1 {
      assert forall p :: p in parts[1..] ==> p in parts;
      SplitJoin(parts[1..]);
      SplitAtSlash(parts[0], Join(parts[1..]));
    }
  }

  // ---- the search

  predicate OccursAt(h: string, n: string, at: nat) {
    at + |n| <= |h| && h[at..at + |n|] == n
  }

  /** `haystack[from..].find(needle)`, as an index of the haystack. */
  function Find(h: string, n: string, from: nat): (r: Option<nat>)
    requires from <= |h|
    ensures r.Some? ==> from <= r.value && OccursAt(h, n, r.value)
    ensures r.Some? ==> forall i :: from <= i < r.value ==> !OccursAt(h, n, i)
    ensures r.None? ==> forall i :: from <= i <= |h| ==> !OccursAt(h, n, i)
    decreases |h| - from
  {
    if OccursAt(h, n, from) then Some(from) else if from == |h| then None else Find(h, n, from + 1)
  }

  predicate BoundaryBefore(h: string, start: nat)
    requires start <= |h|
  {
    start == 0 || h[start - 1] == '/'
  }

  predicate BoundaryAfter(h: string, end: nat)
    requires end <= |h|
  {
    end == |h| || h[end] == '/'
  }

  predicate AlignedAt(h: string, n: string, at: nat) {
    OccursAt(h, n, at) && BoundaryBefore(h, at) && BoundaryAfter(h, at + |n|)
  }

  /** The search from `from` on; after a hit off the boundaries it goes on behind that hit. */
  predicate SearchFrom(h: string, n: string, from: nat)
    requires from <= |h| && n != ""
    decreases |h| - from
  {
    match Find(h, n, from)
    case None => false
    case Some(start) => AlignedAt(h, n, start) || SearchFrom(h, n, start + |n|)
  }

  predicate BoundaryContains(h: string, n: string) {
    n != "" && SearchFrom(h, n, 0)
  }

  lemma SearchStep(h: string, n: string, from: nat)
    requires from <= |h| && n != ""
    ensures Find(h, n, from).None? ==> !SearchFrom(h, n, from)
    ensures var start := Find(h, n, from);
            start.Some? ==>
              && start.value + |n| <= |h|
              && (SearchFrom(h, n, from)
                  <==> (BoundaryBefore(h, start.value) && BoundaryAfter(h, start.value + |n|)) || SearchFrom(h, n, start.value + |n|))
  {
  }

  method BoundaryContainsPath(haystack: string, needle: string) returns (found: bool)
    ensures found == BoundaryContains(haystack, needle)
  {
    if needle == "" {
      return false;
    }
    hide SearchFrom, Find, OccursAt, BoundaryBefore, BoundaryAfter;
    var searchStart := 0;
    while true
      invariant searchStart <= |haystack|
      invariant SearchFrom(haystack, needle, searchStart) == BoundaryContains(haystack, needle)
      decreases |haystack| - searchStart
    {
      SearchStep(haystack, needle, searchStart);
      match Find(haystack, needle, searchStart)
      case None => return false;
      case Some(start) =>
        var end := start + |needle|;
        if BoundaryBefore(haystack, start) && BoundaryAfter(haystack, end) {
          return true;
        }
        searchStart := end;
    }
  }

  // ---- alignment is containment of components

  /** The components of `n` occur in those of `h`, one after the other, from component `i` on. */
  predicate ComponentsAt(h: string, n: string, i: nat) {
    i + |Split(n)| <= |Split(h)| && Split(h)[i..i + |Split(n)|] == Split(n)
  }

  predicate ContainsComponents(h: string, n: string) {
    exists i :: 0 <= i <= |Split(h)| && ComponentsAt(h, n, i)
  }

  predicate Aligned(h: string, n: string) {
    exists at :: 0 <= at <= |h| && AlignedAt(h, n, at)
  }

  lemma PrefixComponents(s: string, n: string)
    requires OccursAt(s, n, 0) && BoundaryAfter(s, |n|)
    ensures ComponentsAt(s, n, 0)
  {
    if |n| == |s| {
      assert s == n;
    } else {
      assert s == n + "/" + s[|n| + 1..];
      SplitAtSlash(n, s[|n| + 1..]);
    }
  }

  lemma AlignedHasComponents(h: string, n: string, at: nat)
    requires AlignedAt(h, n, at)
    ensures ContainsComponents(h, n)
  {
    hide Split;
    var s := h[at..];
    assert s[0..|n|] == n;
    PrefixComponents(s, n);
    if at == 0 {
      assert s == h;
      assert ComponentsAt(h, n, 0);
    } else {
      assert h == h[..at - 1] + "/" + s;
      SplitAtSlash(h[..at - 1], s);
      var i := |Split(h[..at - 1])|;
      assert Split(h)[i..i + |Split(n)|] == Split(s)[0..|Split(n)|];
      assert ComponentsAt(h, n, i);
    }
  }

  /** `n`, followed by the end or a slash. */
  function Followed(n: string, tail: seq<string>): string {
    n + if tail == [] then "" else "/" + Join(tail)
  }

  lemma JoinFollowed(mid: seq<string>, tail: seq<string>)
    requires mid != []
    ensures Join(mid + tail) == Followed(Join(mid), tail)
  {
    hide Join;
    if tail == [] {
      assert mid + tail == mid;
    } else {
      JoinAppend(mid, tail);
      Assoc(Join(mid), "/", Join(tail));
    }
  }

  lemma FollowedIsAligned(before: string, n: string, tail: seq<string>)
    ensures AlignedAt(Followed(n, tail), n, 0)
    ensures AlignedAt(before + "/" + Followed(n, tail), n, |before| + 1)
  {
    var f := Followed(n, tail);
    var h := before + "/" + f;
    assert h[|before| + 1..] == f;
    assert h[|before| + 1..|before| + 1 + |n|] == f[..|n|];
  }

  lemma ComponentsAreAligned(h: string, n: string, i: nat)
    requires ComponentsAt(h, n, i)
    ensures Aligned(h, n)
  {
    hide Join, Split, Followed, AlignedAt;
    var parts, m := Split(h), i + |Split(n)|;
    JoinSplit(h);
    JoinSplit(n);
    JoinFollowed(parts[i..m], parts[m..]);
    var before := Join(parts[..i]);
    FollowedIsAligned(before, n, parts[m..]);
    assert parts == parts[..i] + (parts[i..m] + parts[m..]);
    if i == 0 {
      assert parts == parts[i..m] + parts[m..];
      assert AlignedAt(h, n, 0);
    } else {
      JoinAppend(parts[..i], parts[i..m] + parts[m..]);
      assert AlignedAt(h, n, |before| + 1);
    }
  }

  lemma AlignedIffComponents(h: string, n: string)
    ensures Aligned(h, n) <==> ContainsComponents(h, n)
  {
    if Aligned(h, n) {
      var at :| 0 <= at <= |h| && AlignedAt(h, n, at);
      AlignedHasComponents(h, n, at);
    }
    if ContainsComponents(h, n) {
      var i :| 0 <= i <= |Split(h)| && ComponentsAt(h, n, i);
      ComponentsAreAligned(h, n, i);
    }
  }

  // ---- what the search finds and what it misses

  lemma {:induction false} SearchIsSound(h: string, n: string, from: nat)
    requires from <= |h| && n != "" && SearchFrom(h, n, from)
    ensures Aligned(h, n)
    decreases |h| - from
  {
    var start := Find(h, n, from).value;
    if !AlignedAt(h, n, start) {
      SearchIsSound(h, n, start + |n|);
    }
  }

  /** A hit always means that the components of the needle occur in the haystack. */
  lemma HitMeansComponents(h: string, n: string)
    requires BoundaryContains(h, n)
    ensures ContainsComponents(h, n)
  {
    SearchIsSound(h, n, 0);
    AlignedIffComponents(h, n);
  }

  /** A later part of the needle, starting behind a slash, is also how the needle starts. */
  predicate BorderAt(n: string, k: nat) {
    0 < k < |n| && n[k - 1] == '/' && OccursAt(n, n[k..], 0)
  }

  predicate SlashBorder(n: string) {
    exists k :: 0 <= k < |n| && BorderAt(n, k)
  }

  /** An aligned occurrence that starts inside an earlier one shows such a border. */
  lemma OverlapIsBorder(h: string, n: string, start: nat, at: nat)
    requires OccursAt(h, n, start) && AlignedAt(h, n, at) && start < at < start + |n|
    ensures SlashBorder(n)
  {
    var k := at - start;
    assert n[k - 1] == h[start..start + |n|][k - 1] == h[at - 1];
    assert n[k..] == h[at..start + |n|];
    assert h[at..at + |n|][..|n| - k] == h[at..start + |n|];
    assert BorderAt(n, k);
  }

  lemma {:induction false} SearchIsComplete(h: string, n: string, from: nat, at: nat)
    requires from <= at && AlignedAt(h, n, at) && n != "" && !SlashBorder(n)
    ensures SearchFrom(h, n, from)
    decreases |h| - from
  {
    var start := Find(h, n, from).value;
    if !AlignedAt(h, n, start) {
      if at < start + |n| {
        OverlapIsBorder(h, n, start, at);
      }
      SearchIsComplete(h, n, start + |n|, at);
    }
  }

  /** A path with no empty and no `.` component, but for the empty one before a leading slash. */
  predicate Normal(p: string) {
    var parts := Split(p);
    && (forall i :: 0 < i < |parts| ==> parts[i] != "" && parts[i] != ".")
    && parts[0] != "."
    && (parts[0] == "" ==> |parts| > 1)
  }

  lemma SplitHead(c: char, s: string)
    requires c != '/'
    ensures Split([c] + s) == [[c] + Split(s)[0]] + Split(s)[1..]
  {
    assert ([c] + s)[1..] == s;
  }

  lemma NormalHaystack(c: char, u: string, v: string)
    requires c in "xy" && Normal(u + "/" + v) && Split(u + "/" + v)[0] != ""
    ensures Normal([c] + u + "/" + (u + "/" + v))
    ensures ContainsComponents([c] + u + "/" + (u + "/" + v), u + "/" + v)
  {
    hide Split;
    var n := u + "/" + v;
    var h := [c] + u + "/" + n;
    SplitAtSlash(u, v);
    SplitAtSlash([c] + u, n);
    SplitHead(c, u);
    assert forall i :: 0 < i < |Split(u)| ==> Split([c] + u)[i] == Split(n)[i];
    assert Split(h)[0] == [c] + Split(u)[0];
    assert ComponentsAt(h, n, |Split([c] + u)|);
  }

  /** The haystack that hides an aligned needle behind an unaligned one: a character that
      starts no needle, the needle up to the border, and the needle. */
  lemma BorderHidesNeedle(n: string, k: nat) returns (h: string)
    requires Normal(n) && BorderAt(n, k)
    ensures Normal(h) && ContainsComponents(h, n) && !BoundaryContains(h, n)
  {
    hide Normal, Split, BoundaryContains, ContainsComponents;
    var c := if n[0] == 'x' then 'y' else 'x';
    h := [c] + n[..k - 1] + "/" + n;
    assert n == n[..k - 1] + "/" + n[k..];
    BorderIsRelative(n, k);
    NormalHead(n);
    NormalHaystack(c, n[..k - 1], n[k..]);
    HiddenNeedle(n, k, c, h);
  }

  lemma NormalHead(n: string)
    requires Normal(n) && n != "" && n[0] != '/'
    ensures Split(n)[0] != ""
  {
  }

  lemma DoubleSlashIsNotNormal(a: string, b: string)
    ensures !Normal(a + "/" + ("/" + b))
  {
    SplitAtSlash(a, "/" + b);
    SplitAtSlash("", b);
    assert "" + "/" + b == "/" + b;
    assert Split(a + "/" + ("/" + b))[|Split(a)|] == "";
  }

  lemma AbsoluteHasNoBorder(n: string, k: nat)
    requires Normal(n) && n[..1] == "/"
    ensures !BorderAt(n, k)
  {
    if BorderAt(n, k) {
      assert n[k..][0] == n[0..|n[k..]|][0] == n[..1][0];
      assert n == n[..k - 1] + "/" + ("/" + n[k + 1..]);
      DoubleSlashIsNotNormal(n[..k - 1], n[k + 1..]);
    }
  }

  lemma BorderIsRelative(n: string, k: nat)
    requires Normal(n) && BorderAt(n, k)
    ensures n[0] != '/'
  {
    if n[0] == '/' {
      assert n[..1] == "/";
      AbsoluteHasNoBorder(n, k);
    }
  }

  lemma HiddenNeedle(n: string, k: nat, c: char, h: string)
    requires BorderAt(n, k) && n != "" && c != n[0] && c != '/'
    requires h == [c] + n[..k - 1] + "/" + n
    ensures !BoundaryContains(h, n)
  {
    assert h[1..1 + |n|] == n by {
      assert h[1..] == n[..k - 1] + "/" + n;
      assert n == n[..k - 1] + "/" + n[k..];
      assert n[..|n| - k] == n[k..];
      assert h[1..1 + |n|] == n[..k - 1] + "/" + n[..|n| - k];
    }
    assert h[0..|n|][0] == c;
    assert !OccursAt(h, n, 0);
    assert Find(h, n, 0) == Some(1);
    assert |h| - (1 + |n|) < |n|;
    assert Find(h, n, 1 + |n|) == None;
    assert !AlignedAt(h, n, 1) && !SearchFrom(h, n, 1 + |n|);
    assert !SearchFrom(h, n, 0);
  }

  /** The search agrees with containment of components on all normalised haystacks exactly
      when no part of the needle behind a slash is also how the needle starts. */
  lemma SearchAgreesIff(n: string)
    requires Normal(n)
    ensures (forall h :: Normal(h) ==> (BoundaryContains(h, n) <==> ContainsComponents(h, n))) <==> !SlashBorder(n)
  {
    if SlashBorder(n) {
      var k :| 0 <= k < |n| && BorderAt(n, k);
      var h := BorderHidesNeedle(n, k);
    } else {
      forall h | Normal(h) ensures BoundaryContains(h, n) <==> ContainsComponents(h, n) {
        AlignedIffComponents(h, n);
        if BoundaryContains(h, n) {
          HitMeansComponents(h, n);
        }
        if Aligned(h, n) {
          var at :| 0 <= at <= |h| && AlignedAt(h, n, at);
          SearchIsComplete(h, n, 0, at);
        }
      }
    }
  }

  /** Absolute needles and needles of one component have no such border. */
  lemma SimpleNeedlesHaveNoBorder(n: string)
    requires Normal(n) && (n[..1] == "/" || '/' !in n)
    ensures !SlashBorder(n)
  {
    if SlashBorder(n) {
      var k :| 0 <= k < |n| && BorderAt(n, k);
      if n[..1] == "/" {
        AbsoluteHasNoBorder(n, k);
      }
    }
  }

  /** An absolute needle is found exactly when its components start those of the haystack. */
  lemma AbsoluteNeedleIsPrefix(h: string, n: string)
    requires Normal(h) && Normal(n) && n[..1] == "/"
    ensures BoundaryContains(h, n) <==> ComponentsAt(h, n, 0)
  {
    SimpleNeedlesHaveNoBorder(n);
    SearchAgreesIff(n);
    if ContainsComponents(h, n) {
      var i :| 0 <= i <= |Split(h)| && ComponentsAt(h, n, i);
      assert n == "" + "/" + n[1..];
      SplitAtSlash("", n[1..]);
      assert Split(h)[i] == Split(h)[i..i + |Split(n)|][0] == Split(n)[0] == "";
      assert i == 0;
    }
  }

  /** The smallest miss: `a/a` lies in `xa/a/a`, but the search resumes behind `xa/a`. */
  lemma MissedNeedle()
    ensures ContainsComponents("xa/a/a", "a/a") && !BoundaryContains("xa/a/a", "a/a")
  {
    var h, n := "xa/a/a", "a/a";
    assert AlignedAt(h, n, 3);
    AlignedIffComponents(h, n);
    assert BorderAt(n, 2);
    HiddenNeedle(n, 2, 'x', h);
  }

  // ---- cleaning

  const PREFIXES: seq<string> := [
    "hydrated_context: file_snippet:", "hydrated_context: artifact:", "file_snippet:", "read:",
    "verification:", "write:", "artifact:"]

  const MARKERS: seq<string> := [" source=", " match_reason=", " trace=", " excerpt=", " status=", " kind="]

  /** Drops the first of the prefixes that fits. */
  function WithoutPrefix(s: string, prefixes: seq<string>): string {
    if prefixes == [] then s
    else if OccursAt(s, prefixes[0], 0) then Trim(s[|prefixes[0]|..])
    else WithoutPrefix(s, prefixes[1..])
  }

  /** Cuts at the first of the markers that occurs. */
  function WithoutMarker(s: string, markers: seq<string>): string {
    if markers == [] then s
    else
      match Find(s, markers[0], 0)
      case Some(i) => Trim(s[..i])
      case None => WithoutMarker(s, markers[1..])
  }

  predicate IsQuote(c: char) {
    c in {'"', '\'', '`', ',', ';'}
  }

  function TrimQuotes(s: string): string
    decreases |s|
  {
    if s != "" && IsQuote(s[0]) then TrimQuotes(s[1..])
    else if s != "" && IsQuote(s[|s| - 1]) then TrimQuotes(s[..|s| - 1])
    else s
  }

  function ForwardSlashes(s: string): (r: string)
    ensures |r| == |s|
  {
    seq(|s|, i requires 0 <= i < |s| => if s[i] == '\\' then '/' else s[i])
  }

  function KeptParts(parts: seq<string>): seq<string> {
    if parts == [] then []
    else (if parts[0] == "" || parts[0] == "." then [] else [parts[0]]) + KeptParts(parts[1..])
  }

  function TrimEndSlashes(s: string): string {
    if s != "" && s[|s| - 1] == '/' then TrimEndSlashes(s[..|s| - 1]) else s
  }

  function Normalized(cleaned: string): string {
    var joined := Join(KeptParts(Split(cleaned)));
    TrimEndSlashes(if cleaned != "" && cleaned[0] == '/' then "/" + joined else joined)
  }

  function Clean(value: string): string {
    Normalized(ForwardSlashes(TrimQuotes(WithoutMarker(WithoutPrefix(Trim(value), PREFIXES), MARKERS))))
  }

  lemma {:induction false} KeptPartsSnoc(parts: seq<string>, part: string)
    ensures KeptParts(parts + [part]) == KeptParts(parts) + if part == "" || part == "." then [] else [part]
  {
    if parts == [] {
      assert parts + [part] == [part];
    } else {
      assert (parts + [part])[1..] == parts[1..] + [part];
      KeptPartsSnoc(parts[1..], part);
    }
  }

  method DropPrefix(value: string, prefixes: seq<string>) returns (cleaned: string)
    ensures cleaned == WithoutPrefix(value, prefixes)
  {
    assert prefixes[0..] == prefixes;
    for i := 0 to |prefixes|
      invariant WithoutPrefix(value, prefixes[i..]) == WithoutPrefix(value, prefixes)
    {
      assert prefixes[i..][0] == prefixes[i] && prefixes[i..][1..] == prefixes[i + 1..];
      if OccursAt(value, prefixes[i], 0) {
        return Trim(value[|prefixes[i]|..]);
      }
    }
    return value;
  }

  method CutAtMarker(value: string, markers: seq<string>) returns (cleaned: string)
    ensures cleaned == WithoutMarker(value, markers)
  {
    assert markers[0..] == markers;
    for i := 0 to |markers|
      invariant WithoutMarker(value, markers[i..]) == WithoutMarker(value, markers)
    {
      assert markers[i..][0] == markers[i] && markers[i..][1..] == markers[i + 1..];
      var at := Find(value, markers[i], 0);
      if at.Some? {
        return Trim(value[..at.value]);
      }
    }
    return value;
  }

  method CleanPathLike(value: string) returns (path: string)
    ensures path == Clean(value)
  {
    hide Split, Join, TrimEndSlashes, TrimQuotes, WithoutPrefix, WithoutMarker;
    var cleaned := DropPrefix(Trim(value), PREFIXES);
    cleaned := CutAtMarker(cleaned, MARKERS);
    cleaned := ForwardSlashes(TrimQuotes(cleaned));
    var parts: seq<string> := [];
    var all := Split(cleaned);
    for k := 0 to |all|
      invariant parts == KeptParts(all[..k])
    {
      assert all[..k + 1] == all[..k] + [all[k]];
      KeptPartsSnoc(all[..k], all[k]);
      if all[k] != "" && all[k] != "." {
        parts := parts + [all[k]];
      }
    }
    assert all[..|all|] == all;
    var normalized := if cleaned != "" && cleaned[0] == '/' then "/" + Join(parts) else Join(parts);
    path := TrimEndSlashes(normalized);
  }

  lemma {:induction false} SplitHasNoSlash(s: string)
    ensures forall p :: p in Split(s) ==> '/' !in p
  {
    if s != "" {
      SplitHasNoSlash(s[1..]);
    }
  }

  predicate GoodParts(parts: seq<string>) {
    forall p :: p in parts ==> p != "" && p != "." && '/' !in p
  }

  lemma {:induction false} KeptPartsAreGood(parts: seq<string>)
    requires forall p :: p in parts ==> '/' !in p
    ensures GoodParts(KeptParts(parts))
  {
    if parts != [] {
      assert parts[0] in parts && forall p :: p in parts[1..] ==> p in parts;
      KeptPartsAreGood(parts[1..]);
    }
  }

  lemma {:induction false} JoinEndsWithoutSlash(parts: seq<string>)
    requires parts != [] && GoodParts(parts)
    ensures Join(parts) != "" && Join(parts)[|Join(parts)| - 1] != '/' && Join(parts)[0] != '/'
  {
    assert parts[0] in parts && parts[0][0] in parts[0] && parts[0][|parts[0]| - 1] in parts[0];
    if |parts| > 1 {
      assert forall p :: p in parts[1..] ==> p in parts;
      JoinEndsWithoutSlash(parts[1..]);
    }
  }

  lemma NormalizedIsNormal(cleaned: string)
    ensures Normalized(cleaned) == "" || Normal(Normalized(cleaned))
  {
    hide Split, Join;
    var parts := KeptParts(Split(cleaned));
    SplitHasNoSlash(cleaned);
    KeptPartsAreGood(Split(cleaned));
    if parts == [] {
      assert Join(parts) == "" by { JoinOfNone(); }
      assert "/"[..0] == "";
      assert TrimEndSlashes("/") == TrimEndSlashes("");
    } else {
      var joined := Join(parts);
      JoinEndsWithoutSlash(parts);
      SplitJoin(parts);
      SplitAtSlash("", joined);
      SplitPart("");
      assert "" + "/" + joined == "/" + joined;
      assert forall i :: 0 <= i < |parts| ==> parts[i] in parts;
    }
  }

  lemma JoinOfNone()
    ensures Join([]) == ""
  {
  }

  /** Cleaning yields the empty string or a normalised path. */
  lemma CleanIsNormal(value: string)
    ensures Clean(value) == "" || Normal(Clean(value))
  {
    hide Normalized, Normal;
    NormalizedIsNormal(ForwardSlashes(TrimQuotes(WithoutMarker(WithoutPrefix(Trim(value), PREFIXES), MARKERS))));
  }

  // ---- the scope relation

  /** The relation on cleaned paths. */
  predicate PathsMatch(c: string, t: string) {
    c != "" && t != "" && (c == t || BoundaryContains(c, t) || BoundaryContains(t, c))
  }

  /** `evidence_path_scope_matches`. */
  predicate ScopeMatches(candidate: string, target: string) {
    PathsMatch(Clean(candidate), Clean(target))
  }

  lemma ScopeMatchIsSymmetric(a: string, b: string)
    ensures ScopeMatches(a, b) <==> ScopeMatches(b, a)
  {
    hide Clean, BoundaryContains;
  }

  /** A match means that one cleaned path has the components of the other; without slash
      borders in either, that is also enough. */
  lemma ScopeMatchMeansComponents(candidate: string, target: string)
    ensures var c, t := Clean(candidate), Clean(target);
            var related := c != "" && t != "" && (ContainsComponents(c, t) || ContainsComponents(t, c));
            && (ScopeMatches(candidate, target) ==> related)
            && (related && !SlashBorder(c) && !SlashBorder(t) ==> ScopeMatches(candidate, target))
  {
    hide Clean, BoundaryContains, ContainsComponents, SlashBorder, Normal;
    var c, t := Clean(candidate), Clean(target);
    CleanIsNormal(candidate);
    CleanIsNormal(target);
    if c != "" && t != "" {
      if c == t {
        SamePathContains(c);
      }
      if BoundaryContains(c, t) { HitMeansComponents(c, t); }
      if BoundaryContains(t, c) { HitMeansComponents(t, c); }
      if !SlashBorder(c) { SearchAgreesIff(c); }
      if !SlashBorder(t) { SearchAgreesIff(t); }
    }
  }

  lemma SamePathContains(c: string)
    ensures ContainsComponents(c, c)
  {
    assert ComponentsAt(c, c, 0);
  }

  // ---- choosing a target

  /** `str::len`: the number of bytes of the UTF-8 encoding (section 3 of RFC 3629). */
  function ByteLength(s: string): nat {
    if s == "" then 0
    else
      var c := s[0] as int;
      (if c < 0x80 then 1 else if c < 0x800 then 2 else if c < 0x10000 then 3 else 4) + ByteLength(s[1..])
  }

  lemma {:induction false} ByteLengthAppend(a: string, b: string)
    ensures ByteLength(a + b) == ByteLength(a) + ByteLength(b)
  {
    if a == "" {
      assert a + b == b;
    } else {
      assert (a + b)[1..] == a[1..] + b;
      ByteLengthAppend(a[1..], b);
    }
  }

  /** Where the encoded length of a character grows; with the lemma above this is all there is. */
  lemma ByteLengthOfChar(c: char)
    ensures ByteLength("") == 0
    ensures ByteLength([c]) == 1 <==> c <= '\U{00007F}'
    ensures ByteLength([c]) <= 2 <==> c <= '\U{0007FF}'
    ensures ByteLength([c]) <= 3 <==> c <= '\U{00FFFF}'
    ensures 1 <= ByteLength([c]) <= 4
  {
    assert [c][1..] == "";
  }

  /** The key of `max_by_key`: an exact target first, then the longer one in bytes. */
  predicate KeyAtMost(c: string, a: string, b: string) {
    if (c == Clean(a)) == (c == Clean(b)) then ByteLength(Clean(a)) <= ByteLength(Clean(b)) else c == Clean(b)
  }

  /** The last of the matching targets with the greatest key. */
  function BestTarget(c: string, targets: seq<string>): (r: Option<nat>)
    ensures r.Some? ==> r.value < |targets| && ScopeMatches(c, targets[r.value])
  {
    if targets == [] then None
    else
      var n := |targets| - 1;
      var best := BestTarget(c, targets[..n]);
      if !ScopeMatches(c, targets[n]) then best
      else if best.Some? && !KeyAtMost(c, targets[best.value], targets[n]) then best
      else Some(n)
  }

  /** `matching_target_scope`: the candidate is cleaned, and cleaned again by each match. */
  function MatchingTargetScope(candidate: string, targets: seq<string>): Option<nat> {
    BestTarget(Clean(candidate), targets)
  }

  lemma {:induction false} BestTargetIsGreatest(c: string, targets: seq<string>)
    ensures BestTarget(c, targets).None? <==> forall j :: 0 <= j < |targets| ==> !ScopeMatches(c, targets[j])
    ensures BestTarget(c, targets).Some? ==>
              forall j :: 0 <= j < |targets| && ScopeMatches(c, targets[j]) ==>
                && KeyAtMost(c, targets[j], targets[BestTarget(c, targets).value])
                && (j > BestTarget(c, targets).value ==> !KeyAtMost(c, targets[BestTarget(c, targets).value], targets[j]))
    decreases |targets|
  {
    hide ScopeMatches, Clean;
    if targets != [] {
      var n := |targets| - 1;
      BestTargetIsGreatest(c, targets[..n]);
      assert forall j :: 0 <= j < n ==> targets[..n][j] == targets[j];
      KeyIsTotal(c, targets[n], targets[n]);
    }
  }

  lemma KeyIsTotal(c: string, a: string, b: string)
    ensures KeyAtMost(c, a, b) || KeyAtMost(c, b, a)
  {
  }

  /** A target that is exactly the cleaned candidate wins exactly when cleaning the candidate a
      second time leaves it in the scope of the first result, in particular when it is a fixed
      point; otherwise no exact target is chosen. */
  lemma ExactTargetWinsIff(candidate: string, targets: seq<string>, e: nat)
    requires e < |targets| && Clean(targets[e]) == Clean(candidate) != ""
    ensures var r := MatchingTargetScope(candidate, targets);
            (r.Some? && Clean(targets[r.value]) == Clean(candidate)) <==> PathsMatch(Clean(Clean(candidate)), Clean(candidate))
    ensures Clean(Clean(candidate)) == Clean(candidate) ==>
              var r := MatchingTargetScope(candidate, targets);
              r.Some? && Clean(targets[r.value]) == Clean(candidate)
  {
    hide Clean, BoundaryContains;
    BestTargetIsGreatest(Clean(candidate), targets);
  }

  // ---- an exact target that is not chosen

  /** One component that cleaning would leave as it is but for a prefix. */
  predicate IsWord(p: string) {
    p != "" && p != "." && forall c :: c in p ==> !IsWhitespace(c) && !IsQuote(c) && c != '/' && c != '\\'
  }

  lemma TrimWord(p: string)
    requires p != "" && !IsWhitespace(p[0]) && !IsWhitespace(p[|p| - 1])
    ensures Trim(p) == p
  {
  }

  lemma NotInside(p: string, m: string)
    requires m != "" && m[0] !in p
    ensures forall i :: 0 <= i <= |p| ==> !OccursAt(p, m, i)
  {
    forall i | 0 <= i <= |p| ensures !OccursAt(p, m, i) {
      assert i + |m| <= |p| ==> p[i..i + |m|][0] == p[i] && p[i] in p;
    }
  }

  lemma {:induction false} NoMarkerInWord(p: string, markers: seq<string>)
    requires IsWord(p) && forall m :: m in markers ==> m != "" && m[0] == ' '
    ensures WithoutMarker(p, markers) == p
  {
    if markers != [] {
      var m := markers[0];
      assert m in markers && forall x :: x in markers[1..] ==> x in markers;
      assert ' ' !in p;
      NotInside(p, m);
      assert Find(p, m, 0) == None;
      NoMarkerInWord(p, markers[1..]);
    }
  }

  lemma ReadPrefixOnly(p: string)
    requires IsWord(p)
    ensures WithoutPrefix("read:" + p, PREFIXES) == p
  {
    hide Trim;
    var s := "read:" + p;
    assert p[0] in p && p[|p| - 1] in p;
    TrimWord(p);
    assert s[0] == 'r';
    NotPrefix(s, PREFIXES[0]);
    NotPrefix(s, PREFIXES[1]);
    NotPrefix(s, PREFIXES[2]);
    assert PREFIXES[1..][0] == PREFIXES[1] && PREFIXES[1..][1..][0] == PREFIXES[2] && PREFIXES[1..][1..][1..][0] == "read:";
    assert OccursAt(s, "read:", 0) && s[5..] == p;
    assert WithoutPrefix(s, PREFIXES[1..][1..][1..]) == p;
    assert WithoutPrefix(s, PREFIXES[1..][1..]) == p;
  }

  lemma NotPrefix(s: string, prefix: string)
    requires s != "" && prefix != "" && s[0] != prefix[0]
    ensures !OccursAt(s, prefix, 0)
  {
    assert |prefix| <= |s| ==> s[0..|prefix|][0] == s[0];
  }

  /** Cleaning drops one prefix from a word, not two. */
  lemma CleanRead(p: string)
    requires IsWord(p)
    ensures Clean("read:" + p) == p
  {
    hide WithoutPrefix, WithoutMarker, Trim, TrimQuotes, Normalized;
    var s := "read:" + p;
    assert p[|p| - 1] in p && p[0] in p;
    TrimWord(s);
    ReadPrefixOnly(p);
    NoMarkerInWord(p, MARKERS);
    WordIsPlain(p);
  }

  lemma WordIsPlain(p: string)
    requires IsWord(p)
    ensures TrimQuotes(p) == p && ForwardSlashes(p) == p && Normalized(p) == p
  {
    assert p[|p| - 1] in p && p[0] in p;
    forall i | 0 <= i < |p| ensures ForwardSlashes(p)[i] == p[i] {
      assert p[i] in p;
    }
    SplitPart(p);
    assert KeptParts([p]) == [p];
  }

  /** A candidate that loses an exact target: cleaned once it is `read:x`, which is the target;
      the match cleans it again, and `x` does not lie on path boundaries of `read:x`. */
  lemma ExactTargetLost()
    ensures Clean("read:read:x") == "read:x" && Clean("read:x") == "x"
    ensures MatchingTargetScope("read:read:x", ["read:read:x"]) == None
  {
    hide Clean, BoundaryContains;
    CleanRead("read:x");
    CleanRead("x");
    assert "read:" + "read:x" == "read:read:x" && "read:" + "x" == "read:x";
    NoBoundaryInside();
    var targets := ["read:read:x"];
    assert targets[..0] == [];
    assert !ScopeMatches("read:x", targets[0]);
  }

  lemma NotAlignedNotFound(h: string, n: string)
    requires !Aligned(h, n)
    ensures !BoundaryContains(h, n)
  {
    if BoundaryContains(h, n) {
      SearchIsSound(h, n, 0);
    }
  }

  lemma NoBoundaryInside()
    ensures !BoundaryContains("read:x", "x") && !BoundaryContains("x", "read:x")
  {
    hide BoundaryContains;
    NotAlignedNotFound("read:x", "x");
    NotAlignedNotFound("x", "read:x");
  }
}
