/**
  * The allowlist for link and image targets, compared with the part of the basic URL parser
  * that finds a scheme (section 4.4 of the WHATWG URL Standard), and the rewriting of a
  * markdown event stream.
  */
module MarkdownUrls {
  import opened Options

  predicate AsciiWhitespace(c: char) {
    c == ' ' || c == '\t' || c == '\n' || c == '\r' || c as int == 0x0C
  }

  /** The general category Cc. */
  predicate Control(c: char) {
    c as int < 0x20 || 0x7F <= c as int < 0xA0
  }

  predicate Ignored(c: char) {
    AsciiWhitespace(c) || Control(c)
  }

  function TrimStart(s: string): string {
    if s != [] && Ignored(s[0]) then TrimStart(s[1..]) else s
  }

  function TrimEnd(s: string): string {
    if s != [] && Ignored(s[|s| - 1]) then TrimEnd(s[..|s| - 1]) else s
  }

  function Trim(s: string): string {
    TrimEnd(TrimStart(s))
  }

  /** The index of the first character of `set`, or the length when there is none. */
  function Find(s: string, chars: set<char>): (i: nat)
    ensures i <= |s|
    ensures i < |s| ==> s[i] in chars
    ensures forall k :: 0 <= k < i ==> s[k] !in chars
  {
    if s == [] || s[0] in chars then 0 else 1 + Find(s[1..], chars)
  }

  function Visible(s: string): string {
    if s == [] then [] else if Ignored(s[0]) then Visible(s[1..]) else [s[0]] + Visible(s[1..])
  }

  /** Lower-casing a character may give several. */
  type Lowering = char -> string

  function AsciiLower(c: char): char {
    if 'A' <= c <= 'Z' then (c as int + 32) as char else c
  }

  /** What is assumed of the Unicode tables: on ASCII they lower-case as ASCII does. */
  ghost predicate LowersAscii(lower: Lowering) {
    forall c: char :: c as int < 0x80 ==> lower(c) == [AsciiLower(c)]
  }

  function Lower(lower: Lowering, s: string): string {
    if s == [] then [] else lower(s[0]) + Lower(lower, s[1..])
  }

  predicate AllowedScheme(scheme: string) {
    scheme == "http" || scheme == "https" || scheme == "mailto"
  }

  predicate NetworkPath(s: string) {
    "//" <= s || "\\\\" <= s || "/\\" <= s || "\\/" <= s
  }

  predicate IsAllowedUrl(lower: Lowering, url: string) {
    var trimmed := Trim(url);
    if trimmed == [] then true
    else if NetworkPath(trimmed) then false
    else
      var delimiter := Find(trimmed, {'/', '?', '#'});
      var colon := Find(trimmed, {':'});
      if colon < |trimmed| && colon < delimiter
      then AllowedScheme(Lower(lower, Visible(trimmed[..colon])))
      else true
  }

  function SanitizeUrl(lower: Lowering, url: string): string {
    if IsAllowedUrl(lower, url) then url else "#"
  }

  // ---------------------------------------------------------------- the URL standard's scheme

  /** The parser strips C0 controls and spaces from both ends and drops tabs and newlines. */
  predicate C0OrSpace(c: char) {
    c as int <= 0x20
  }

  predicate TabOrNewline(c: char) {
    c == '\t' || c == '\n' || c == '\r'
  }

  function StripStart(s: string): string {
    if s != [] && C0OrSpace(s[0]) then StripStart(s[1..]) else s
  }

  function StripEnd(s: string): string {
    if s != [] && C0OrSpace(s[|s| - 1]) then StripEnd(s[..|s| - 1]) else s
  }

  function DropTabs(s: string): string {
    if s == [] then [] else if TabOrNewline(s[0]) then DropTabs(s[1..]) else [s[0]] + DropTabs(s[1..])
  }

  predicate Alpha(c: char) {
    'a' <= c <= 'z' || 'A' <= c <= 'Z'
  }

  predicate SchemeChar(c: char) {
    Alpha(c) || '0' <= c <= '9' || c == '+' || c == '-' || c == '.'
  }

  /** Scheme state: collect lower-cased scheme characters up to the colon. */
  function SchemeState(s: string): Option<string> {
    if s == [] then None
    else if s[0] == ':' then Some([])
    else if !SchemeChar(s[0]) then None
    else
      var rest := SchemeState(s[1..]);
      if rest.Some? then Some([AsciiLower(s[0])] + rest.value) else None
  }

  /** The string the parser's states work on. */
  function Cleaned(url: string): string {
    DropTabs(StripEnd(StripStart(url)))
  }

  /** Scheme start state: a scheme begins with a letter. */
  function UrlScheme(url: string): Option<string> {
    var s := Cleaned(url);
    if s != [] && Alpha(s[0]) then SchemeState(s) else None
  }

  // ---------------------------------------------------------------- the allowlist in closed form

  /** What the verdict looks at when a colon comes before every `/`, `?` and `#`. */
  predicate ColonFirst(url: string) {
    Find(url, {':'}) < |url| && Find(url, {':'}) < Find(url, {'/', '?', '#'})
  }

  lemma {:induction false} TrimStartSplits(s: string) returns (k: nat)
    ensures k <= |s| && TrimStart(s) == s[k..] && forall i :: 0 <= i < k ==> Ignored(s[i])
  {
    k := 0;
    if s != [] && Ignored(s[0]) {
      var k' := TrimStartSplits(s[1..]);
      k := k' + 1;
      assert forall i :: 1 <= i < k ==> s[i] == s[1..][i - 1];
    }
  }

  lemma {:induction false} TrimEndSplits(s: string) returns (k: nat)
    ensures k <= |s| && TrimEnd(s) == s[..k] && forall i :: k <= i < |s| ==> Ignored(s[i])
  {
    k := |s|;
    if s != [] && Ignored(s[|s| - 1]) {
      k := TrimEndSplits(s[..|s| - 1]);
    }
  }

  /** Trimming drops ignored characters from both ends. */
  lemma TrimSplits(url: string) returns (front: string, back: string)
    ensures url == front + Trim(url) + back
    ensures forall i :: 0 <= i < |front| ==> Ignored(front[i])
    ensures forall i :: 0 <= i < |back| ==> Ignored(back[i])
  {
    var k := TrimStartSplits(url);
    var rest := url[k..];
    var m := TrimEndSplits(rest);
    front, back := url[..k], rest[m..];
    assert url == front + rest && rest == rest[..m] + back;
  }

  lemma FindIs(s: string, chars: set<char>, i: nat)
    requires i <= |s| && (i < |s| ==> s[i] in chars) && forall k :: 0 <= k < i ==> s[k] !in chars
    ensures Find(s, chars) == i
  {}

  /** Text around a string that contains none of the delimiters does not change which is first. */
  lemma ColonFirstInside(front: string, s: string, back: string)
    requires forall i :: 0 <= i < |front| ==> front[i] !in {':', '/', '?', '#'}
    requires forall i :: 0 <= i < |back| ==> back[i] !in {':', '/', '?', '#'}
    ensures ColonFirst(front + s + back) <==> ColonFirst(s)
    ensures ColonFirst(s) ==> Find(front + s + back, {':'}) == |front| + Find(s, {':'})
  {
    FindShifts(front, s, back, {':'});
    FindShifts(front, s, back, {'/', '?', '#'});
  }

  lemma FindShifts(front: string, s: string, back: string, chars: set<char>)
    requires forall i :: 0 <= i < |front| ==> front[i] !in chars
    ensures Find(s, chars) < |s| ==> Find(front + s + back, chars) == |front| + Find(s, chars)
    ensures Find(s, chars) == |s| ==> Find(front + s + back, chars) == |front| + |s| + Find(back, chars)
  {
    var t, i := front + s + back, Find(s, chars);
    if i < |s| {
      assert t[|front| + i] == s[i];
      FindIs(t, chars, |front| + i);
    } else {
      assert forall k :: |front| + |s| <= k < |t| ==> t[k] == back[k - |front| - |s|];
      FindIs(t, chars, |front| + |s| + Find(back, chars));
    }
  }

  lemma {:induction false} VisibleSkips(a: string, b: string)
    requires forall i :: 0 <= i < |a| ==> Ignored(a[i])
    ensures Visible(a + b) == Visible(b)
  {
    if a == [] {
      assert a + b == b;
    } else {
      assert (a + b)[1..] == a[1..] + b;
      VisibleSkips(a[1..], b);
    }
  }

  /**
    * With the colon first, the verdict depends on nothing but the visible characters before
    * it, lower-cased.
    */
  lemma VerdictWithColonFirst(lower: Lowering, url: string)
    requires LowersAscii(lower) && ColonFirst(url)
    ensures IsAllowedUrl(lower, url) <==>
      Lower(lower, Visible(url[..Find(url, {':'})])) in {"http", "https", "mailto"}
  {
    TrimKeepsScheme(url);
    VerdictOfTrimmed(lower, url);
  }

  lemma TrimKeepsScheme(url: string)
    requires ColonFirst(url)
    ensures ColonFirst(Trim(url))
    ensures Visible(url[..Find(url, {':'})]) == Visible(Trim(url)[..Find(Trim(url), {':'})])
  {
    var front, back := TrimSplits(url);
    var trimmed := Trim(url);
    ColonFirstInside(front, trimmed, back);
    var colon := Find(trimmed, {':'});
    assert url[..|front| + colon] == front + trimmed[..colon];
    VisibleSkips(front, trimmed[..colon]);
  }

  lemma VerdictOfTrimmed(lower: Lowering, url: string)
    requires LowersAscii(lower) && ColonFirst(Trim(url))
    ensures IsAllowedUrl(lower, url) <==> AllowedScheme(Lower(lower, Visible(Trim(url)[..Find(Trim(url), {':'})])))
  {
    var trimmed := Trim(url);
    var colon := Find(trimmed, {':'});
    if NetworkPath(trimmed) {
      assert trimmed[0] == '\\' && colon > 0;
      BackslashIsNoScheme(lower, trimmed[..colon]);
    }
  }

  lemma BackslashIsNoScheme(lower: Lowering, s: string)
    requires LowersAscii(lower) && s != [] && s[0] == '\\'
    ensures !AllowedScheme(Lower(lower, Visible(s)))
  {
    assert Visible(s)[0] == '\\';
    assert Lower(lower, Visible(s))[0] == '\\';
  }

  /** Strings that differ in ignored characters and in ASCII case only. */
  predicate SameScheme(a: string, b: string) {
    Folded(Visible(a)) == Folded(Visible(b))
  }

  function Folded(s: string): string {
    seq(|s|, i requires 0 <= i < |s| => AsciiLower(s[i]))
  }

  /** Folding ASCII case first makes no difference to lower-casing. */
  lemma {:induction false} LowerOfFolded(lower: Lowering, s: string)
    requires LowersAscii(lower)
    ensures Lower(lower, Folded(s)) == Lower(lower, s)
  {
    if s != [] {
      LowerOfFolded(lower, s[1..]);
      assert Folded(s)[1..] == Folded(s[1..]) && Folded(s)[0] == AsciiLower(s[0]);
    }
  }

  /**
    * The verdict does not change when white space or control characters are inserted or
    * removed anywhere up to the first colon, nor when ASCII case changes there.
    */
  lemma VerdictIgnoresDisguise(lower: Lowering, url: string, url': string)
    requires LowersAscii(lower) && ColonFirst(url) && ColonFirst(url')
    requires SameScheme(url[..Find(url, {':'})], url'[..Find(url', {':'})])
    ensures IsAllowedUrl(lower, url) == IsAllowedUrl(lower, url')
  {
    VerdictWithColonFirst(lower, url);
    VerdictWithColonFirst(lower, url');
    LowerOfFolded(lower, Visible(url[..Find(url, {':'})]));
    LowerOfFolded(lower, Visible(url'[..Find(url', {':'})]));
  }

  // ---------------------------------------------------------------- agreement with the parser

  lemma {:induction false} StripStartSplits(s: string) returns (k: nat)
    ensures k <= |s| && StripStart(s) == s[k..] && forall i :: 0 <= i < k ==> C0OrSpace(s[i])
  {
    k := 0;
    if s != [] && C0OrSpace(s[0]) {
      var k' := StripStartSplits(s[1..]);
      k := k' + 1;
      assert forall i :: 1 <= i < k ==> s[i] == s[1..][i - 1];
    }
  }

  lemma {:induction false} StripEndIsPrefix(s: string)
    ensures StripEnd(s) <= s
  {
    if s != [] && C0OrSpace(s[|s| - 1]) {
      StripEndIsPrefix(s[..|s| - 1]);
    }
  }

  /** Before the colon of a scheme stand only scheme characters, tabs and newlines. */
  lemma {:induction false} SchemeSpelling(lower: Lowering, s: string)
    requires LowersAscii(lower) && SchemeState(DropTabs(s)).Some?
    ensures ColonFirst(s) && Lower(lower, Visible(s[..Find(s, {':'})])) == SchemeState(DropTabs(s)).value
  {
    if s[0] == ':' {
      FindIs(s, {':'}, 0);
    } else {
      var rest := s[1..];
      if !TabOrNewline(s[0]) {
        assert DropTabs(s)[1..] == DropTabs(rest);
      }
      SchemeSpelling(lower, rest);
      var colon := Find(rest, {':'});
      assert Find(s, {':'}) == colon + 1;
      assert s[..colon + 1] == [s[0]] + rest[..colon];
      assert s[..colon + 1][1..] == rest[..colon];
    }
  }

  lemma ColonFirstInPrefix(s: string, t: string)
    requires s <= t && ColonFirst(s)
    ensures ColonFirst(t) && Find(t, {':'}) == Find(s, {':'})
  {
    FindIs(t, {':'}, Find(s, {':'}));
    var d := Find(t, {'/', '?', '#'});
    assert d < |s| ==> s[d] in {'/', '?', '#'};
  }

  /**
    * Wherever the standard's parser finds a scheme, the allowlist accepts the string exactly
    * when that scheme is http, https or mailto.
    */
  lemma AgreesWithUrlStandard(lower: Lowering, url: string)
    requires LowersAscii(lower) && UrlScheme(url).Some?
    ensures IsAllowedUrl(lower, url) <==> UrlScheme(url).value in {"http", "https", "mailto"}
  {
    var k := StripStartSplits(url);
    StripEndIsPrefix(url[k..]);
    assert url == url[..k] + url[k..];
    SchemeBehindSpaces(lower, url[..k], url[k..], StripEnd(StripStart(url)));
    VerdictWithColonFirst(lower, url);
  }

  /** Leading white space hides nothing: the visible characters before the colon are the scheme. */
  lemma SchemeBehindSpaces(lower: Lowering, front: string, rest: string, inner: string)
    requires LowersAscii(lower) && inner <= rest && SchemeState(DropTabs(inner)).Some?
    requires forall i :: 0 <= i < |front| ==> C0OrSpace(front[i])
    ensures var url := front + rest;
      ColonFirst(url) && Lower(lower, Visible(url[..Find(url, {':'})])) == SchemeState(DropTabs(inner)).value
  {
    SchemeSpelling(lower, inner);
    ColonFirstInPrefix(inner, rest);
    assert front + rest + [] == front + rest;
    ColonFirstInside(front, rest, []);
    var colon := Find(inner, {':'});
    assert (front + rest)[..|front| + colon] == front + inner[..colon];
    VisibleSkips(front, inner[..colon]);
  }

  /** Hence every accepted string has no scheme, or one of the three. */
  lemma AllowedMeansKnownScheme(lower: Lowering, url: string)
    requires LowersAscii(lower) && IsAllowedUrl(lower, url)
    ensures UrlScheme(url).None? || UrlScheme(url).value in {"http", "https", "mailto"}
  {
    if UrlScheme(url).Some? {
      AgreesWithUrlStandard(lower, url);
    }
  }

  // ---------------------------------------------------------------- network-path references

  predicate Slash(c: char) {
    c == '/' || c == '\\'
  }

  /** A slash or backslash, twice. */
  predicate BeginsTwoSlashes(s: string) {
    |s| >= 2 && Slash(s[0]) && Slash(s[1])
  }

  lemma NetworkPathIs(s: string)
    ensures NetworkPath(s) <==> BeginsTwoSlashes(s)
  {
    assert |s| >= 2 ==> s[..2] == [s[0], s[1]];
  }

  lemma {:induction false} FirstKept(s: string) returns (j: nat)
    requires DropTabs(s) != []
    ensures j < |s| && s[j] == DropTabs(s)[0] && !TabOrNewline(s[j])
    ensures DropTabs(s)[1..] == DropTabs(s[j + 1..])
    ensures forall i :: 0 <= i < j ==> TabOrNewline(s[i])
  {
    j := 0;
    if TabOrNewline(s[0]) {
      var j' := FirstKept(s[1..]);
      j := j' + 1;
      assert s[1..][j' + 1..] == s[j + 1..];
      assert forall i :: 1 <= i < j ==> s[i] == s[1..][i - 1];
    }
  }

  lemma {:induction false} BothStartAtSlash(s: string)
    requires StripStart(s) != [] && !Ignored(StripStart(s)[0])
    ensures TrimStart(s) == StripStart(s)
  {
    if C0OrSpace(s[0]) {
      BothStartAtSlash(s[1..]);
    }
  }

  lemma {:induction false} StartIsKeptOut(s: string)
    ensures StripStart(s) != [] ==> !C0OrSpace(StripStart(s)[0])
  {
    if s != [] && C0OrSpace(s[0]) {
      StartIsKeptOut(s[1..]);
    }
  }

  /** A string that is two slashes to the parser starts with one, tabs and newlines, and another. */
  lemma TwoSlashes(url: string) returns (j: nat)
    requires BeginsTwoSlashes(Cleaned(url))
    ensures 0 < j < |Trim(url)| && Slash(Trim(url)[0]) && Slash(Trim(url)[j])
    ensures forall i :: 0 < i < j ==> TabOrNewline(Trim(url)[i])
  {
    var s := StripStart(url);
    var inner := StripEnd(s);
    StripEndIsPrefix(s);
    StartIsKeptOut(url);
    var i := FirstKept(inner);
    var k := FirstKept(inner[i + 1..]);
    assert i == 0;
    j := k + 1;
    assert Slash(inner[0]) && Slash(inner[j]);
    BothStartAtSlash(url);
    var m := TrimEndSplits(s);
    assert !Ignored(s[j]);
    assert forall n :: 0 < n < j ==> s[n] == inner[1..][n - 1];
  }

  /**
    * References the parser takes for network paths are refused, except exactly when a tab or
    * newline stands between the two slashes, which the parser drops, and no colon precedes
    * every delimiter.
    */
  lemma NetworkPathAllowedIff(lower: Lowering, url: string)
    requires LowersAscii(lower) && BeginsTwoSlashes(Cleaned(url))
    ensures |Trim(url)| > 1
    ensures IsAllowedUrl(lower, url) <==> TabOrNewline(Trim(url)[1]) && !ColonFirst(Trim(url))
  {
    var j := TwoSlashes(url);
    var trimmed := Trim(url);
    NetworkPathIs(trimmed);
    if j > 1 && ColonFirst(trimmed) {
      BackslashIsNoScheme(lower, trimmed[..Find(trimmed, {':'})]);
    }
  }

  /** For instance this one is allowed, while the parser drops the tab. */
  lemma TabBetweenSlashes(lower: Lowering)
    ensures IsAllowedUrl(lower, "/\t/host") && Cleaned("/\t/host") == "//host"
  {
    var url := "/\t/host";
    assert TrimStart(url) == url && TrimEnd(url) == url && StripStart(url) == url && StripEnd(url) == url;
    assert url[1..] == "\t/host" && url[1..][1..] == "/host";
    FindIs(url, {'/', '?', '#'}, 0);
    KeepsAll("/host");
    assert DropTabs(url) == "/" + "/host";
  }

  lemma {:induction false} KeepsAll(s: string)
    requires forall i :: 0 <= i < |s| ==> !TabOrNewline(s[i])
    ensures DropTabs(s) == s
  {
    if s != [] {
      KeepsAll(s[1..]);
    }
  }

  // ---------------------------------------------------------------- everything else is relative

  /** The characters that are trimmed and skipped, by number. */
  lemma IgnoredIs(c: char)
    ensures Ignored(c) <==> c as int <= 0x20 || 0x7F <= c as int <= 0x9F
  {}

  /**
    * What is not a network path and has no colon before its first `/`, `?` or `#` is a local
    * relative reference: it is allowed, and sanitizing leaves it as it is.
    */
  lemma RelativeIsAllowed(lower: Lowering, url: string)
    requires !BeginsTwoSlashes(Trim(url)) && !ColonFirst(Trim(url))
    ensures IsAllowedUrl(lower, url) && SanitizeUrl(lower, url) == url
  {
    NetworkPathIs(Trim(url));
  }

  /** Without any colon, two slashes after trimming are the only reason to refuse. */
  lemma NoColonAllowedIff(lower: Lowering, url: string)
    requires ':' !in url
    ensures IsAllowedUrl(lower, url) <==> !BeginsTwoSlashes(Trim(url))
  {
    NetworkPathIs(Trim(url));
    var front, back := TrimSplits(url);
    assert forall i :: 0 <= i < |Trim(url)| ==> Trim(url)[i] == url[|front| + i] && url[|front| + i] in url;
  }

  lemma {:induction false} StripThenTrim(s: string)
    ensures TrimStart(s) == TrimStart(StripStart(s))
  {
    if s != [] && C0OrSpace(s[0]) {
      StripThenTrim(s[1..]);
    }
  }

  /**
    * In the parser's terms: a string with no colon that the parser does not take for a network
    * path passes through, unless it begins with a control character from DEL on, which the
    * parser, unlike the allowlist, does not strip.
    */
  lemma RelativeToParserPasses(lower: Lowering, url: string)
    requires ':' !in url && !BeginsTwoSlashes(Cleaned(url))
    requires StripStart(url) != [] ==> !(0x7F <= StripStart(url)[0] as int <= 0x9F)
    ensures SanitizeUrl(lower, url) == url
  {
    NoColonAllowedIff(lower, url);
    if BeginsTwoSlashes(Trim(url)) {
      StripThenTrim(url);
      StartIsKeptOut(url);
      var s := StripStart(url);
      assert TrimStart(s) == s;
      var m := TrimEndSplits(s);
      TwoSlashesAreKept(s);
    }
  }

  lemma TwoSlashesAreKept(s: string)
    requires BeginsTwoSlashes(s)
    ensures BeginsTwoSlashes(DropTabs(StripEnd(s)))
  {
    StripEndKeepsTwo(s);
    var inner := StripEnd(s);
    assert inner[0] == s[0] && inner[1] == s[1];
    assert DropTabs(inner) == [inner[0]] + DropTabs(inner[1..]);
    assert DropTabs(inner[1..]) == [inner[1]] + DropTabs(inner[1..][1..]);
  }

  lemma {:induction false} StripEndKeepsTwo(s: string)
    requires BeginsTwoSlashes(s)
    ensures StripEnd(s) <= s && |StripEnd(s)| >= 2
  {
    if C0OrSpace(s[|s| - 1]) {
      StripEndKeepsTwo(s[..|s| - 1]);
    }
  }

  /** For instance this one is refused, although to the parser it is a path like any other. */
  lemma ControlBeforeSlashes(lower: Lowering)
    ensures SanitizeUrl(lower, ['\U{80}', '/', '/', 'x']) == "#"
    ensures !BeginsTwoSlashes(Cleaned(['\U{80}', '/', '/', 'x']))
  {
    var url: string := ['\U{80}', '/', '/', 'x'];
    assert url[1..] == ['/', '/', 'x'];
    assert TrimStart(url) == url[1..] && Trim(url) == url[1..];
    NetworkPathIs(Trim(url));
    assert Cleaned(url)[0] == '\U{80}';
  }

  /** A refused target becomes the empty fragment, an allowed one stays. */
  lemma SanitizeIs(lower: Lowering, url: string)
    ensures SanitizeUrl(lower, url) == if IsAllowedUrl(lower, url) then url else ['#']
  {}

  /** What sanitizing returns is always allowed, so doing it again changes nothing. */
  lemma SanitizedIsAllowed(lower: Lowering, url: string)
    ensures IsAllowedUrl(lower, SanitizeUrl(lower, url))
    ensures SanitizeUrl(lower, SanitizeUrl(lower, url)) == SanitizeUrl(lower, url)
  {
    assert Trim("#") == "#" && Find("#", {':'}) == 1;
  }

  // ---------------------------------------------------------------- the event stream

  datatype Tag =
    | Link(linkType: nat, destUrl: string, title: string, id: string)
    | Image(linkType: nat, destUrl: string, title: string, id: string)
    | OtherTag(kind: nat)

  datatype TagEnd = LinkEnd | ImageEnd | OtherEnd(kind: nat)

  datatype Event =
    | Start(tag: Tag)
    | End(tagEnd: TagEnd)
    | Text(text: string)
    | Html(text: string)
    | InlineHtml(text: string)
    | Other(kind: nat, text: string)

  function NeutralizeEvent(lower: Lowering, event: Event): Event {
    match event
    case Html(html) => Text(html)
    case InlineHtml(html) => Text(html)
    case Start(Link(linkType, destUrl, title, id)) => Start(Link(linkType, SanitizeUrl(lower, destUrl), title, id))
    case Start(Image(linkType, destUrl, title, id)) => Start(Image(linkType, SanitizeUrl(lower, destUrl), title, id))
    case _ => event
  }

  function Neutralize(lower: Lowering, events: seq<Event>): seq<Event> {
    seq(|events|, i requires 0 <= i < |events| => NeutralizeEvent(lower, events[i]))
  }

  function EndOf(tag: Tag): TagEnd {
    match tag
    case Link(_, _, _, _) => LinkEnd
    case Image(_, _, _, _) => ImageEnd
    case OtherTag(kind) => OtherEnd(kind)
  }

  /** The ends still expected after a stream, innermost last; None when an end did not match. */
  function OpenTags(events: seq<Event>): Option<seq<TagEnd>> {
    if events == [] then Some([])
    else
      var before := OpenTags(events[..|events| - 1]);
      if before.None? then None
      else match events[|events| - 1]
        case Start(tag) => Some(before.value + [EndOf(tag)])
        case End(tagEnd) =>
          if before.value != [] && before.value[|before.value| - 1] == tagEnd
          then Some(before.value[..|before.value| - 1]) else None
        case _ => before
  }

  /** An event that puts neither raw HTML nor a refused target into the output. */
  predicate Safe(lower: Lowering, event: Event) {
    && !event.Html? && !event.InlineHtml?
    && (event.Start? && !event.tag.OtherTag? ==> IsAllowedUrl(lower, event.tag.destUrl))
  }

  /** Every rewritten stream is safe, keeps its nesting, and is left alone by a second pass. */
  lemma NeutralizedIsSafe(lower: Lowering, events: seq<Event>)
    ensures forall i :: 0 <= i < |events| ==> Safe(lower, Neutralize(lower, events)[i])
    ensures OpenTags(Neutralize(lower, events)) == OpenTags(events)
    ensures Neutralize(lower, Neutralize(lower, events)) == Neutralize(lower, events)
  {
    forall i | 0 <= i < |events|
      ensures Safe(lower, NeutralizeEvent(lower, events[i]))
      ensures NeutralizeEvent(lower, NeutralizeEvent(lower, events[i])) == NeutralizeEvent(lower, events[i])
    {
      if events[i].Start? && !events[i].tag.OtherTag? {
        SanitizedIsAllowed(lower, events[i].tag.destUrl);
      }
    }
    NestingIsKept(lower, events);
  }

  lemma {:induction false} NestingIsKept(lower: Lowering, events: seq<Event>)
    ensures OpenTags(Neutralize(lower, events)) == OpenTags(events)
  {
    if events != [] {
      NestingIsKept(lower, events[..|events| - 1]);
      var after := Neutralize(lower, events);
      assert after[..|after| - 1] == Neutralize(lower, events[..|events| - 1]);
    }
  }

  /** What rewriting may do to an event: escape raw HTML, word for word, and replace a refused target. */
  ghost predicate SameBut(lower: Lowering, before: Event, after: Event) {
    match before
    case Html(text) => after == Text(text)
    case InlineHtml(text) => after == Text(text)
    case Start(Link(linkType, destUrl, title, id)) =>
      exists target :: after == Start(Link(linkType, target, title, id)) && Replaces(lower, destUrl, target)
    case Start(Image(linkType, destUrl, title, id)) =>
      exists target :: after == Start(Image(linkType, target, title, id)) && Replaces(lower, destUrl, target)
    case _ => after == before
  }

  predicate Replaces(lower: Lowering, url: string, target: string) {
    target == if IsAllowedUrl(lower, url) then url else ['#']
  }

  /** Nothing but that happens to a stream, event by event. */
  lemma NeutralizeChangesOnly(lower: Lowering, events: seq<Event>)
    ensures |Neutralize(lower, events)| == |events|
    ensures forall i :: 0 <= i < |events| ==> SameBut(lower, events[i], Neutralize(lower, events)[i])
  {
    forall i | 0 <= i < |events|
      ensures SameBut(lower, events[i], NeutralizeEvent(lower, events[i]))
    {
      if events[i].Start? && !events[i].tag.OtherTag? {
        assert Replaces(lower, events[i].tag.destUrl, SanitizeUrl(lower, events[i].tag.destUrl));
      }
    }
  }

  /** A stream that is already safe passes through unchanged. */
  lemma SafeIsUnchanged(lower: Lowering, events: seq<Event>)
    requires forall i :: 0 <= i < |events| ==> Safe(lower, events[i])
    ensures Neutralize(lower, events) == events
  {}
}
