/** The env file of the setup: how it is written, and how a start of the program loads it. */
module EnvFile {
  import opened Text

  // ---- quoting

  function ReplaceChar(s: string, c: char, t: string): string {
    if s == "" then "" else (if s[0] == c then t else [s[0]]) + ReplaceChar(s[1..], c, t)
  }

  /** `double_quote_env_value`: backslashes are doubled first, then quotes are escaped. */
  function DoubleQuote(value: string): string {
    "\"" + ReplaceChar(ReplaceChar(value, '\\', "\\\\"), '"', "\\\"") + "\""
  }

  /** `unescape_double_quoted_env_value`: a backslash stands for the character behind it, and
      a last backslash for nothing. */
  function Unescape(value: string): string {
    if value == "" then ""
    else if value[0] == '\\' then if |value| == 1 then "" else [value[1]] + Unescape(value[2..])
    else [value[0]] + Unescape(value[1..])
  }

  method UnescapeDoubleQuoted(value: string) returns (output: string)
    ensures output == Unescape(value)
  {
    output := "";
    var i := 0;
    while i < |value|
      invariant i <= |value|
      invariant output + Unescape(value[i..]) == Unescape(value)
    {
      var ch := value[i];
      assert value[i..][0] == ch && value[i..][1..] == value[i + 1..];
      i := i + 1;
      if ch == '\\' {
        if i < |value| {
          assert value[i - 1..][2..] == value[i + 1..];
          output := output + [value[i]];
          i := i + 1;
        }
      } else {
        output := output + [ch];
      }
    }
  }

  function Unquote(value: string): string {
    if |value| >= 2 && value[0] == '"' && value[|value| - 1] == '"' then Unescape(value[1..|value| - 1])
    else if |value| >= 2 && value[0] == '\'' && value[|value| - 1] == '\'' then value[1..|value| - 1]
    else value
  }

  /** Both replacements at once, character by character. */
  function Escaped(value: string): string {
    if value == "" then ""
    else (if value[0] == '\\' then "\\\\" else if value[0] == '"' then "\\\"" else [value[0]]) + Escaped(value[1..])
  }

  lemma {:induction false} ReplaceCharAppend(a: string, b: string, c: char, t: string)
    ensures ReplaceChar(a + b, c, t) == ReplaceChar(a, c, t) + ReplaceChar(b, c, t)
  {
    if a == "" {
      assert a + b == b;
    } else {
      assert (a + b)[1..] == a[1..] + b;
      ReplaceCharAppend(a[1..], b, c, t);
    }
  }

  lemma {:induction false} QuotingEscapes(value: string)
    ensures ReplaceChar(ReplaceChar(value, '\\', "\\\\"), '"', "\\\"") == Escaped(value)
  {
    if value != "" {
      var first := if value[0] == '\\' then "\\\\" else [value[0]];
      QuotingEscapes(value[1..]);
      ReplaceCharAppend(first, ReplaceChar(value[1..], '\\', "\\\\"), '"', "\\\"");
      assert first[1..] == "" || first[1..] == "\\";
      assert "\\"[1..] == "";
    }
  }

  lemma {:induction false} UnescapeEscaped(value: string)
    ensures Unescape(Escaped(value)) == value
  {
    if value != "" {
      UnescapeEscaped(value[1..]);
      var first := if value[0] == '\\' then "\\\\" else if value[0] == '"' then "\\\"" else [value[0]];
      assert Escaped(value) == first + Escaped(value[1..]);
      assert Escaped(value)[|first|..] == Escaped(value[1..]);
      assert value == [value[0]] + value[1..];
    }
  }

  lemma DoubleQuoteIs(value: string)
    ensures DoubleQuote(value) == "\"" + Escaped(value) + "\""
  {
    QuotingEscapes(value);
  }

  /** Quoting and unquoting gives back every value. */
  lemma UnquoteDoubleQuote(value: string)
    ensures Unquote(DoubleQuote(value)) == value
  {
    DoubleQuoteIs(value);
    UnescapeEscaped(value);
    var q := DoubleQuote(value);
    assert q[1..|q| - 1] == Escaped(value);
  }

  /** Single quotes are dropped without unescaping, and a value that is not quoted at both ends
      with the same quote is left as it is. */
  lemma UnquoteOthers(value: string)
    ensures Unquote("'" + value + "'") == value
    ensures value == "" || value[0] !in "\"'" || value[|value| - 1] != value[0] || |value| == 1 ==> Unquote(value) == value
  {
    var q := "'" + value + "'";
    assert q[1..|q| - 1] == value;
  }

  // ---- the file

  /** What the setup asks for; the proxy lines are written only when there is a proxy. */
  datatype Settings = Settings(envName: string, apiKey: string, proxyUrl: Option<string>, noProxy: Option<string>)

  const PROXY_URL_KEY: string := "RUST_AGENT_PROXY_URL"
  const NO_PROXY_KEY: string := "RUST_AGENT_NO_PROXY"

  function Comment(text: string): string {
    "# " + text
  }

  function Title(): string {
    "Optional proxy/TLS configuration " + "for OpenAI-compatible providers."
  }

  function ProxyUrlExample(): string {
    PROXY_URL_KEY + "=\"http://127.0.0.1:7890\""
  }

  function NoProxyExample(): string {
    NO_PROXY_KEY + "=\"localhost,127.0.0.1,::1\""
  }

  function CaBundleExample(): string {
    "RUST_AGENT_CA_BUNDLE=" + "\"/absolute/path/to/ca.pem\""
  }

  /** The comments at the end of the file. */
  function Footer(): seq<string> {
    [Comment(Title()), Comment(ProxyUrlExample()), Comment(NoProxyExample()), Comment(CaBundleExample())]
  }

  function Assignment(key: string, value: string): string {
    key + "=" + DoubleQuote(value)
  }

  /** The text of lines that each end in a newline. */
  function Written(lines: seq<string>): string {
    if lines == [] then "" else lines[0] + "\n" + Written(lines[1..])
  }

  /** The pieces of the file, each ended by a newline. A value with a newline in it makes its
      piece several lines. */
  function FilePieces(s: Settings): seq<string> {
    [Assignment(s.envName, s.apiKey), ""]
    + (if s.proxyUrl.None? then []
       else [Assignment(PROXY_URL_KEY, s.proxyUrl.value)]
            + (if s.noProxy.None? then [] else [Assignment(NO_PROXY_KEY, s.noProxy.value)])
            + [""])
    + Footer()
  }

  function FileText(s: Settings): string {
    Written(FilePieces(s))
  }

  // ---- loading

  /** `str::lines`: split at newlines, with a carriage return before one dropped, and no last
      line that is empty. */
  function Lines(text: string): seq<string>
    decreases |text|
  {
    if text == "" then []
    else
      var n := LineLength(text);
      if n == |text| then [text] else [WithoutCr(text[..n])] + Lines(text[n + 1..])
  }

  function LineLength(text: string): (n: nat)
    ensures n <= |text| && '\n' !in text[..n]
    ensures n < |text| ==> text[n] == '\n'
  {
    if text == "" || text[0] == '\n' then 0
    else
      var rest := LineLength(text[1..]);
      assert text[..1 + rest] == [text[0]] + text[1..][..rest];
      1 + rest
  }

  function WithoutCr(line: string): string {
    if line != "" && line[|line| - 1] == '\r' then line[..|line| - 1] else line
  }

  type Env = map<string, string>

  /** `set_var` panics on some names and values. */
  datatype Loaded = Loaded(env: Env) | Panicked

  predicate SetVarPanics(key: string, value: string) {
    key == "" || '=' in key || '\0' in key || '\0' in value
  }

  /** Splits at the first `=`. */
  function EqualsAt(line: string): (r: Option<nat>)
    ensures r.Some? ==> r.value < |line| && line[r.value] == '=' && '=' !in line[..r.value]
    ensures r.None? ==> '=' !in line
  {
    if line == "" then None
    else if line[0] == '=' then Some(0)
    else
      match EqualsAt(line[1..])
      case None =>
        assert line == [line[0]] + line[1..];
        None
      case Some(i) =>
        assert line[..i + 1] == [line[0]] + line[1..][..i];
        Some(i + 1)
  }

  function LoadLine(env: Env, line: string): Loaded {
    var trimmed := Trim(line);
    if trimmed == "" || trimmed[0] == '#' then Loaded(env)
    else
      match EqualsAt(trimmed)
      case None => Loaded(env)
      case Some(i) =>
        var key := Trim(trimmed[..i]);
        if key == "" || key in env then Loaded(env)
        else
          var value := Unquote(Trim(trimmed[i + 1..]));
          if SetVarPanics(key, value) then Panicked else Loaded(env[key := value])
  }

  function LoadLines(env: Env, lines: seq<string>): Loaded
    decreases |lines|
  {
    if lines == [] then Loaded(env)
    else match LoadLine(env, lines[0]) case Panicked => Panicked case Loaded(next) => LoadLines(next, lines[1..])
  }

  method LoadEnvFile(env: Env, content: string) returns (loaded: Loaded)
    ensures loaded == LoadLines(env, Lines(content))
  {
    var current := env;
    var lines := Lines(content);
    assert lines[0..] == lines;
    for k := 0 to |lines|
      invariant LoadLines(current, lines[k..]) == LoadLines(env, lines)
    {
      assert lines[k..][0] == lines[k] && lines[k..][1..] == lines[k + 1..];
      var trimmed := Trim(lines[k]);
      if trimmed == "" || trimmed[0] == '#' {
        continue;
      }
      var at := EqualsAt(trimmed);
      if at.None? {
        continue;
      }
      var key := Trim(trimmed[..at.value]);
      if key == "" || key in current {
        continue;
      }
      var value := Unquote(Trim(trimmed[at.value + 1..]));
      if SetVarPanics(key, value) {
        return Panicked;
      }
      current := current[key := value];
    }
    return Loaded(current);
  }

  // ---- reading back what was written

  /** The names the presets use: no white space at either end, no `=`, no NUL, no newline, not
      a comment. */
  predicate IsKey(key: string) {
    && key != "" && !IsWhitespace(key[0]) && !IsWhitespace(key[|key| - 1]) && key[0] != '#'
    && '=' !in key && '\0' !in key && '\n' !in key
  }

  lemma TrimKeeps(s: string)
    requires s != "" && !IsWhitespace(s[0]) && !IsWhitespace(s[|s| - 1])
    ensures Trim(s) == s
  {
  }

  lemma {:induction false} EqualsAtFirst(key: string, rest: string)
    requires '=' !in key
    ensures EqualsAt(key + "=" + rest) == Some(|key|)
  {
    if key != "" {
      assert key[0] in key && forall c :: c in key[1..] ==> c in key;
      EqualsAtFirst(key[1..], rest);
      assert (key + "=" + rest)[1..] == key[1..] + "=" + rest;
    }
  }

  /** A written assignment sets its key to its value, unless the key is set already or the
      value holds a NUL. */
  lemma LoadAssignment(env: Env, key: string, value: string)
    requires IsKey(key)
    ensures LoadLine(env, Assignment(key, value)) ==
            if key in env then Loaded(env) else if '\0' in value then Panicked else Loaded(env[key := value])
  {
    hide DoubleQuote, Unquote, Trim;
    var q := DoubleQuote(value);
    var line := Assignment(key, value);
    QuoteEnds(value);
    assert line[0] == key[0] && line[|line| - 1] == q[|q| - 1];
    TrimKeeps(line);
    EqualsAtFirst(key, q);
    assert line[..|key|] == key && line[|key| + 1..] == q;
    TrimKeeps(key);
    TrimKeeps(q);
    UnquoteDoubleQuote(value);
  }

  predicate Blank(s: string) {
    forall i :: 0 <= i < |s| ==> IsWhitespace(s[i])
  }

  lemma {:induction false} TrimStartOf(gap: string, s: string)
    requires Blank(gap)
    ensures TrimStart(gap + s) == TrimStart(s)
  {
    if gap == "" {
      assert gap + s == s;
    } else {
      assert (gap + s)[1..] == gap[1..] + s;
      TrimStartOf(gap[1..], s);
    }
  }

  lemma {:induction false} TrimEndOf(s: string, gap: string)
    requires Blank(gap)
    ensures TrimEnd(s + gap) == TrimEnd(s)
    decreases |gap|
  {
    if gap == "" {
      assert s + gap == s;
    } else {
      assert (s + gap)[..|s + gap| - 1] == s + gap[..|gap| - 1];
      TrimEndOf(s, gap[..|gap| - 1]);
    }
  }

  /** White space on both sides goes, and text that has none at its ends stays. */
  lemma TrimBoth(left: string, s: string, right: string)
    requires Blank(left) && Blank(right) && (s != "" ==> !IsWhitespace(s[0]) && !IsWhitespace(s[|s| - 1]))
    ensures Trim(left + (s + right)) == s
  {
    hide TrimEnd;
    if s == "" {
      assert left + (s + right) == left + right;
      TrimStartOf(left + right, "");
      assert (left + right) + "" == left + right;
      assert TrimEnd("") == "" by { TrimEndOfNothing(); }
    } else {
      TrimStartOf(left, s + right);
      assert (s + right)[0] == s[0];
      TrimEndOf(s, right);
      TrimKeeps(s);
    }
  }

  lemma TrimEndOfNothing()
    ensures TrimEnd("") == ""
  {
  }

  /** A line written by hand, with white space wherever it is allowed: it sets its key unless
      that is set already, to the value without its quotes, and panics on a NUL. */
  lemma LoadHandWritten(env: Env, g0: string, key: string, g1: string, g2: string, value: string, g3: string)
    requires Blank(g0) && Blank(g1) && Blank(g2) && Blank(g3)
    requires key != "" && !IsWhitespace(key[0]) && !IsWhitespace(key[|key| - 1]) && key[0] != '#' && '=' !in key
    requires value != "" && !IsWhitespace(value[0]) && !IsWhitespace(value[|value| - 1])
    ensures LoadLine(env, g0 + ((key + g1 + "=" + (g2 + value)) + g3)) ==
            if key in env then Loaded(env)
            else if '\0' in key || '\0' in Unquote(value) then Panicked
            else Loaded(env[key := Unquote(value)])
  {
    hide Unquote, Trim, EqualsAt, Blank;
    var line := key + g1 + "=" + (g2 + value);
    assert line[0] == key[0] && line[|line| - 1] == value[|value| - 1];
    BlankNothing();
    BlankHasNoEquals(g1);
    TrimBoth(g0, line, g3);
    EqualsAtFirst(key + g1, g2 + value);
    assert line[..|key + g1|] == key + g1 && line[|key + g1| + 1..] == g2 + value;
    assert "" + (key + g1) == key + g1 && g2 + (value + "") == g2 + value;
    TrimBoth("", key, g1);
    TrimBoth(g2, value, "");
  }

  lemma BlankHasNoEquals(s: string)
    requires Blank(s)
    ensures '=' !in s
  {
  }

  lemma BlankNothing()
    ensures Blank("")
  {
  }

  lemma QuoteEnds(value: string)
    ensures var q := DoubleQuote(value); |q| >= 2 && q[0] == '"' && q[|q| - 1] == '"'
  {
  }

  lemma {:induction false} EscapedKeepsNewlines(value: string, c: char)
    requires c != '\\' && c != '"'
    ensures c in Escaped(value) <==> c in value
  {
    if value != "" {
      EscapedKeepsNewlines(value[1..], c);
      assert value == [value[0]] + value[1..];
    }
  }

  lemma AssignmentIsOneLine(key: string, value: string)
    requires IsKey(key) && '\n' !in value
    ensures '\n' !in Assignment(key, value) && WithoutCr(Assignment(key, value)) == Assignment(key, value)
  {
    DoubleQuoteIs(value);
    EscapedKeepsNewlines(value, '\n');
  }

  lemma {:induction false} LineLengthIs(line: string, rest: string)
    requires '\n' !in line
    ensures LineLength(line + "\n" + rest) == |line|
  {
    if line != "" {
      assert line[0] in line && forall c :: c in line[1..] ==> c in line;
      LineLengthIs(line[1..], rest);
      assert (line + "\n" + rest)[1..] == line[1..] + "\n" + rest;
    }
  }

  lemma LinesCons(line: string, rest: string)
    requires '\n' !in line
    ensures Lines(line + "\n" + rest) == [WithoutCr(line)] + Lines(rest)
  {
    hide LineLength, WithoutCr;
    var text := line + "\n" + rest;
    LineLengthIs(line, rest);
    assert text[..|line|] == line && text[|line| + 1..] == rest;
  }

  /** A line may also end in a carriage return and a newline, and the last one in nothing. */
  lemma LinesOfCrLf(line: string, rest: string)
    requires '\n' !in line
    ensures Lines(line + "\r" + "\n" + rest) == [line] + Lines(rest)
    ensures line != "" ==> Lines(line) == [line]
  {
    var text := line + "\r" + "\n" + rest;
    LineLengthIs(line + "\r", rest);
    assert text[..|line| + 1] == line + "\r" && text[|line| + 2..] == rest;
    assert LineLength(line) == |line| by {
      assert forall i :: 0 <= i < |line| ==> line[i] in line;
    }
  }

  predicate PlainLines(lines: seq<string>) {
    forall l :: l in lines ==> '\n' !in l && WithoutCr(l) == l
  }

  lemma {:induction false} LinesOfWritten(lines: seq<string>)
    requires PlainLines(lines)
    ensures Lines(Written(lines)) == lines
  {
    if lines != [] {
      assert lines[0] in lines && forall l :: l in lines[1..] ==> l in lines;
      LinesOfWritten(lines[1..]);
      LinesCons(lines[0], Written(lines[1..]));
    }
  }

  /** Lines that set nothing: empty ones and comments. */
  predicate IsInert(line: string) {
    line == "" || line[0] == '#'
  }

  lemma LoadInert(env: Env, line: string)
    requires IsInert(line)
    ensures LoadLine(env, line) == Loaded(env)
  {
    if line != "" {
      var k := TrimStartIsSuffix(line);
      assert TrimStart(line) == line;
      TrimEndKeepsFirst(line);
    }
  }

  lemma {:induction false} TrimEndKeepsFirst(s: string)
    requires s != "" && !IsWhitespace(s[0])
    ensures TrimEnd(s) != "" && TrimEnd(s)[0] == s[0]
  {
    if IsWhitespace(s[|s| - 1]) {
      TrimEndKeepsFirst(s[..|s| - 1]);
    }
  }

  lemma {:induction false} LoadInertLines(env: Env, lines: seq<string>)
    requires forall l :: l in lines ==> IsInert(l)
    ensures LoadLines(env, lines) == Loaded(env)
  {
    if lines != [] {
      assert lines[0] in lines && forall l :: l in lines[1..] ==> l in lines;
      LoadInert(env, lines[0]);
      LoadInertLines(env, lines[1..]);
    }
  }

  /** The settings can be asked for: a preset name, which is not one of the proxy names. */
  predicate Askable(s: Settings) {
    IsKey(s.envName) && s.envName != PROXY_URL_KEY && s.envName != NO_PROXY_KEY
  }

  predicate OneLineValues(s: Settings) {
    && '\n' !in s.apiKey
    && (s.proxyUrl.Some? ==> '\n' !in s.proxyUrl.value && (s.noProxy.Some? ==> '\n' !in s.noProxy.value))
  }

  predicate WithoutNul(s: Settings) {
    && '\0' !in s.apiKey
    && (s.proxyUrl.Some? ==> '\0' !in s.proxyUrl.value && (s.noProxy.Some? ==> '\0' !in s.noProxy.value))
  }

  predicate Unset(env: Env, s: Settings) {
    s.envName !in env && PROXY_URL_KEY !in env && NO_PROXY_KEY !in env
  }

  /** The environment the settings ask for. */
  function Wanted(env: Env, s: Settings): Env {
    var withKey := env[s.envName := s.apiKey];
    if s.proxyUrl.None? then withKey
    else
      var withProxy := withKey[PROXY_URL_KEY := s.proxyUrl.value];
      if s.noProxy.None? then withProxy else withProxy[NO_PROXY_KEY := s.noProxy.value]
  }

  lemma KeysAreKeys()
    ensures IsKey(PROXY_URL_KEY) && IsKey(NO_PROXY_KEY) && PROXY_URL_KEY != NO_PROXY_KEY
  {
    assert |PROXY_URL_KEY| != |NO_PROXY_KEY|;
  }

  lemma CommentIsPlain(text: string)
    requires IsCommentText(text)
    ensures '\n' !in Comment(text) && WithoutCr(Comment(text)) == Comment(text) && IsInert(Comment(text))
  {
  }

  predicate IsCommentText(text: string) {
    '\n' !in text && text != "" && text[|text| - 1] != '\r'
  }

  lemma CommentTextAppend(a: string, b: string)
    requires '\n' !in a && IsCommentText(b)
    ensures IsCommentText(a + b)
  {
  }

  lemma TitleIsPlain()
    ensures IsCommentText(Title())
  {
    CommentTextAppend("Optional proxy/TLS configuration ", "for OpenAI-compatible providers.");
  }

  lemma ProxyUrlExampleIsPlain()
    ensures IsCommentText(ProxyUrlExample())
  {
    KeysAreKeys();
    CommentTextAppend(PROXY_URL_KEY, "=\"http://127.0.0.1:7890\"");
  }

  lemma NoProxyExampleIsPlain()
    ensures IsCommentText(NoProxyExample())
  {
    KeysAreKeys();
    CommentTextAppend(NO_PROXY_KEY, "=\"localhost,127.0.0.1,::1\"");
  }

  lemma CaBundleExampleIsPlain()
    ensures IsCommentText(CaBundleExample())
  {
    CommentTextAppend("RUST_AGENT_CA_BUNDLE=", "\"/absolute/path/to/ca.pem\"");
  }

  lemma FooterIsPlain()
    ensures PlainLines(Footer()) && forall l :: l in Footer() ==> IsInert(l)
  {
    hide Comment, WithoutCr, Title, ProxyUrlExample, NoProxyExample, CaBundleExample;
    TitleIsPlain();
    ProxyUrlExampleIsPlain();
    NoProxyExampleIsPlain();
    CaBundleExampleIsPlain();
    CommentIsPlain(Title());
    CommentIsPlain(ProxyUrlExample());
    CommentIsPlain(NoProxyExample());
    CommentIsPlain(CaBundleExample());
  }

  lemma PiecesArePlain(s: Settings)
    requires Askable(s) && OneLineValues(s)
    ensures PlainLines(FilePieces(s))
  {
    hide Assignment, Footer, WithoutCr;
    FooterIsPlain();
    EmptyLineIsPlain();
    KeysAreKeys();
    AssignmentIsOneLine(s.envName, s.apiKey);
    if s.proxyUrl.Some? {
      AssignmentIsOneLine(PROXY_URL_KEY, s.proxyUrl.value);
      if s.noProxy.Some? {
        AssignmentIsOneLine(NO_PROXY_KEY, s.noProxy.value);
      }
    }
  }

  lemma EmptyLineIsPlain()
    ensures WithoutCr("") == ""
  {
  }

  lemma LoadCons(env: Env, line: string, rest: seq<string>)
    ensures LoadLines(env, [line] + rest) ==
            match LoadLine(env, line) case Panicked => Panicked case Loaded(next) => LoadLines(next, rest)
  {
    hide LoadLine;
    assert ([line] + rest)[1..] == rest;
  }

  lemma LoadPieces(env: Env, s: Settings)
    requires Askable(s) && WithoutNul(s) && Unset(env, s)
    ensures LoadLines(env, FilePieces(s)) == Loaded(Wanted(env, s))
  {
    hide LoadLines, LoadLine, Assignment, Footer;
    KeysAreKeys();
    var e1 := env[s.envName := s.apiKey];
    LoadAssignment(env, s.envName, s.apiKey);
    LoadInert(e1, "");
    FooterIsPlain();
    if s.proxyUrl.None? {
      assert FilePieces(s) == [Assignment(s.envName, s.apiKey)] + ([""] + Footer());
      LoadCons(env, Assignment(s.envName, s.apiKey), [""] + Footer());
      LoadCons(e1, "", Footer());
      LoadInertLines(e1, Footer());
    } else {
      var tail := (if s.noProxy.None? then [] else [Assignment(NO_PROXY_KEY, s.noProxy.value)]) + ([""] + Footer());
      var e2 := e1[PROXY_URL_KEY := s.proxyUrl.value];
      assert FilePieces(s)
          == [Assignment(s.envName, s.apiKey)] + ([""] + ([Assignment(PROXY_URL_KEY, s.proxyUrl.value)] + tail));
      LoadCons(env, Assignment(s.envName, s.apiKey), [""] + ([Assignment(PROXY_URL_KEY, s.proxyUrl.value)] + tail));
      LoadCons(e1, "", [Assignment(PROXY_URL_KEY, s.proxyUrl.value)] + tail);
      LoadCons(e1, Assignment(PROXY_URL_KEY, s.proxyUrl.value), tail);
      LoadAssignment(e1, PROXY_URL_KEY, s.proxyUrl.value);
      LoadTail(e2, s, tail);
    }
  }

  lemma LoadTail(env: Env, s: Settings, tail: seq<string>)
    requires NO_PROXY_KEY !in env && (s.noProxy.Some? ==> '\0' !in s.noProxy.value)
    requires tail == (if s.noProxy.None? then [] else [Assignment(NO_PROXY_KEY, s.noProxy.value)]) + ([""] + Footer())
    ensures LoadLines(env, tail) == Loaded(if s.noProxy.None? then env else env[NO_PROXY_KEY := s.noProxy.value])
  {
    hide LoadLines, LoadLine, Assignment, Footer;
    KeysAreKeys();
    FooterIsPlain();
    LoadInertLines(env, [""] + Footer());
    if s.noProxy.Some? {
      LoadAssignment(env, NO_PROXY_KEY, s.noProxy.value);
      LoadCons(env, Assignment(NO_PROXY_KEY, s.noProxy.value), [""] + Footer());
      LoadInertLines(env[NO_PROXY_KEY := s.noProxy.value], [""] + Footer());
    } else {
      assert tail == [""] + Footer();
    }
  }

  /** Values on one line and without NUL are loaded exactly as they were given. */
  lemma RoundTrip(env: Env, s: Settings)
    requires Askable(s) && Unset(env, s) && OneLineValues(s) && WithoutNul(s)
    ensures LoadLines(env, Lines(FileText(s))) == Loaded(Wanted(env, s))
  {
    PiecesArePlain(s);
    LinesOfWritten(FilePieces(s));
    LoadPieces(env, s);
  }

  // ---- values that do not come back

  lemma {:induction false} LinesHaveNoNewline(text: string)
    ensures forall l :: l in Lines(text) ==> '\n' !in l
    decreases |text|
  {
    if text != "" {
      var n := LineLength(text);
      if n == |text| {
        assert text[..n] == text;
      } else {
        LinesHaveNoNewline(text[n + 1..]);
      }
    }
  }

  /** No character appears that was not in the line. */
  lemma {:induction false} UnescapeAddsNothing(value: string, c: char)
    requires c !in value
    ensures c !in Unescape(value)
    decreases |value|
  {
    if value != "" {
      if value[0] == '\\' {
        if |value| > 1 {
          assert value == [value[0], value[1]] + value[2..];
          UnescapeAddsNothing(value[2..], c);
        }
      } else {
        assert value == [value[0]] + value[1..];
        UnescapeAddsNothing(value[1..], c);
      }
    }
  }

  lemma {:induction false} TrimAddsNothing(s: string, c: char)
    requires c !in s
    ensures c !in TrimStart(s) && c !in TrimEnd(s)
    decreases |s|
  {
    if s != "" {
      assert s == [s[0]] + s[1..] == s[..|s| - 1] + [s[|s| - 1]];
      TrimAddsNothing(s[1..], c);
      TrimAddsNothing(s[..|s| - 1], c);
    }
  }

  lemma UnquoteAddsNothing(value: string, c: char)
    requires c !in value
    ensures c !in Unquote(value)
  {
    if |value| >= 2 {
      assert forall x :: x in value[1..|value| - 1] ==> x in value;
      UnescapeAddsNothing(value[1..|value| - 1], c);
    }
  }

  predicate CleanAt(env: Env, key: string) {
    key in env ==> '\n' !in env[key] && '\0' !in env[key]
  }

  lemma LoadLineKeepsClean(env: Env, line: string, key: string)
    requires '\n' !in line && CleanAt(env, key)
    ensures var r := LoadLine(env, line); r.Loaded? ==> CleanAt(r.env, key)
  {
    hide Unquote, TrimStart, TrimEnd;
    TrimAddsNothing(line, '\n');
    TrimAddsNothing(TrimStart(line), '\n');
    var trimmed := Trim(line);
    var at := EqualsAt(trimmed);
    if at.Some? {
      var rest := trimmed[at.value + 1..];
      assert forall x :: x in rest ==> x in trimmed;
      TrimAddsNothing(rest, '\n');
      TrimAddsNothing(TrimStart(rest), '\n');
      UnquoteAddsNothing(Trim(rest), '\n');
    }
  }

  lemma {:induction false} LoadedValuesAreClean(env: Env, lines: seq<string>, key: string)
    requires forall l :: l in lines ==> '\n' !in l
    requires CleanAt(env, key)
    ensures var r := LoadLines(env, lines); r.Loaded? ==> CleanAt(r.env, key)
    decreases |lines|
  {
    if lines != [] {
      hide LoadLine;
      assert lines[0] in lines && forall l :: l in lines[1..] ==> l in lines;
      LoadLineKeepsClean(env, lines[0], key);
      var next := LoadLine(env, lines[0]);
      if next.Loaded? {
        LoadedValuesAreClean(next.env, lines[1..], key);
      }
    }
  }

  /** The file gives back the settings exactly when no value that it writes holds a newline or
      a NUL. */
  lemma RoundTripIff(env: Env, s: Settings)
    requires Askable(s) && Unset(env, s)
    ensures LoadLines(env, Lines(FileText(s))) == Loaded(Wanted(env, s)) <==> OneLineValues(s) && WithoutNul(s)
  {
    hide LoadLines, Lines, FileText;
    KeysAreKeys();
    if OneLineValues(s) && WithoutNul(s) {
      RoundTrip(env, s);
    } else {
      LinesHaveNoNewline(FileText(s));
      LoadedValuesAreClean(env, Lines(FileText(s)), s.envName);
      LoadedValuesAreClean(env, Lines(FileText(s)), PROXY_URL_KEY);
      LoadedValuesAreClean(env, Lines(FileText(s)), NO_PROXY_KEY);
    }
  }

  /** Every API key on one line that holds a NUL makes loading the written file panic. */
  lemma NulPanics(env: Env, s: Settings)
    requires Askable(s) && Unset(env, s) && OneLineValues(s) && '\0' in s.apiKey
    ensures LoadLines(env, Lines(FileText(s))) == Panicked
  {
    hide LoadLines, LoadLine, Assignment, Footer;
    PiecesArePlain(s);
    LinesOfWritten(FilePieces(s));
    LoadAssignment(env, s.envName, s.apiKey);
    var rest := FilePieces(s)[1..];
    assert FilePieces(s) == [Assignment(s.envName, s.apiKey)] + rest;
    LoadCons(env, Assignment(s.envName, s.apiKey), rest);
  }

  /** The smallest such key. */
  lemma NulKeyPanics()
    ensures LoadLines(map[], Lines(FileText(Settings("OPENAI_API_KEY", "\0", None, None)))) == Panicked
  {
    hide LoadLines, Lines, FileText;
    assert |"OPENAI_API_KEY"| != |PROXY_URL_KEY| && |"OPENAI_API_KEY"| != |NO_PROXY_KEY|;
    NulPanics(map[], Settings("OPENAI_API_KEY", "\0", None, None));
  }

  lemma WrittenCons(first: string, rest: seq<string>)
    ensures Written([first] + rest) == first + "\n" + Written(rest)
  {
    assert ([first] + rest)[1..] == rest;
  }

  /** A piece with a newline in it is written like two lines. */
  lemma WrittenSplit(x: string, y: string, rest: seq<string>)
    ensures Written([x + "\n" + y] + rest) == Written([x] + ([y] + rest))
  {
    hide Written;
    WrittenCons(x + "\n" + y, rest);
    WrittenCons(x, [y] + rest);
    WrittenCons(y, rest);
    assert x + "\n" + y + "\n" + Written(rest) == x + "\n" + (y + "\n" + Written(rest));
  }

  lemma LoadOpenQuote(env: Env, key: string)
    requires IsKey(key) && key !in env
    ensures LoadLine(env, key + "=" + "\"a") == Loaded(env[key := "\"a"])
  {
    hide Trim;
    var line := key + "=" + "\"a";
    TrimKeeps(line);
    EqualsAtFirst(key, "\"a");
    assert line[..|key|] == key && line[|key| + 1..] == "\"a";
    TrimKeeps(key);
    TrimKeeps("\"a");
  }

  lemma LoadRestOfValue(env: Env)
    ensures LoadLine(env, "b\"") == Loaded(env)
  {
    hide Trim;
    TrimKeeps("b\"");
    assert EqualsAt("b\"").None?;
  }

  lemma TwoLineValue(key: string)
    ensures Assignment(key, "a\nb") == key + "=" + "\"a" + "\n" + "b\""
  {
    DoubleQuoteIs("a\nb");
    assert "a\nb"[1..] == "\nb" && "\nb"[1..] == "b" && "b"[1..] == "";
    assert Escaped("b") == "b" && Escaped("\nb") == "\n" + "b" && Escaped("a\nb") == "a" + ("\n" + "b");
  }

  /** A value with a newline is cut there, and keeps the quote in front of it. */
  lemma NewlineCutsValue(env: Env, key: string)
    requires IsKey(key) && key !in env
    ensures LoadLines(env, Lines(FileText(Settings(key, "a\nb", None, None)))) == Loaded(env[key := "\"a"])
  {
    hide LoadLines, LoadLine, Assignment, Footer, Lines, Written;
    var s := Settings(key, "a\nb", None, None);
    var x, y, rest := key + "=" + "\"a", "b\"", [""] + Footer();
    TwoLineValue(key);
    assert FilePieces(s) == [x + "\n" + y] + rest;
    WrittenSplit(x, y, rest);
    FooterIsPlain();
    EmptyLineIsPlain();
    LinesOfWritten([x] + ([y] + rest));
    var e1 := env[key := "\"a"];
    LoadCons(env, x, [y] + rest);
    LoadOpenQuote(env, key);
    LoadCons(e1, y, rest);
    LoadRestOfValue(e1);
    LoadInertLines(e1, rest);
  }
}
