/** Request paths with optional parameters, and the reader of the page's own `?q=` parameter. */
module QueryPaths {
  import opened Options
  import opened Percent

  // ---------------------------------------------------------------- splitting and joining

  /** The pieces between separators; always at least one. */
  function Split(s: string, sep: char): (parts: seq<string>)
    ensures parts != []
  {
    if s == [] then [[]]
    else
      var rest := Split(s[1..], sep);
      if s[0] == sep then [[]] + rest else [[s[0]] + rest[0]] + rest[1..]
  }

  function Join(parts: seq<string>, sep: char): string {
    if parts == [] then []
    else if |parts| == 1 then parts[0]
    else parts[0] + [sep] + Join(parts[1..], sep)
  }

  /** Before the first separator, and after it if there is one. */
  function SplitFirst(s: string, sep: char): (string, Option<string>) {
    if s == [] then ([], None)
    else if s[0] == sep then ([], Some(s[1..]))
    else
      var (key, value) := SplitFirst(s[1..], sep);
      ([s[0]] + key, value)
  }

  lemma {:induction false} SplitHead(a: string, rest: string, sep: char)
    requires sep !in a
    ensures Split(a, sep) == [a]
    ensures Split(a + [sep] + rest, sep) == [a] + Split(rest, sep)
  {
    if a == [] {
      assert [sep] + rest == a + [sep] + rest;
      assert ([sep] + rest)[1..] == rest;
    } else {
      assert a[0] in a;
      SplitHead(a[1..], rest, sep);
      assert (a + [sep] + rest)[1..] == a[1..] + [sep] + rest;
      assert a == [a[0]] + a[1..];
    }
  }

  lemma {:induction false} SplitInvertsJoin(parts: seq<string>, sep: char)
    requires parts != [] && forall p <- parts :: sep !in p
    ensures Split(Join(parts, sep), sep) == parts
  {
    assert parts[0] in parts;
    if |parts| == 1 {
      SplitHead(parts[0], [], sep);
    } else {
      SplitHead(parts[0], Join(parts[1..], sep), sep);
      SplitInvertsJoin(parts[1..], sep);
    }
  }

  lemma {:induction false} SplitFirstHead(a: string, rest: string, sep: char)
    requires sep !in a
    ensures SplitFirst(a, sep) == (a, None)
    ensures SplitFirst(a + [sep] + rest, sep) == (a, Some(rest))
  {
    if a == [] {
      assert a + [sep] + rest == [sep] + rest;
    } else {
      assert a[0] in a;
      SplitFirstHead(a[1..], rest, sep);
      assert (a + [sep] + rest)[1..] == a[1..] + [sep] + rest;
      assert a == [a[0]] + a[1..];
    }
  }

  // ---------------------------------------------------------------- building and reading a path

  type Param = (string, string)

  function ParamText(p: Param): string {
    p.0 + "=" + UrlEncode(p.1)
  }

  function Texts(params: seq<Param>): seq<string> {
    seq(|params|, i requires 0 <= i < |params| => ParamText(params[i]))
  }

  lemma TextsConcat(a: seq<Param>, b: seq<Param>)
    ensures Texts(a + b) == Texts(a) + Texts(b)
  {}

  function Path(base: string, params: seq<Param>): string {
    if params == [] then base else base + "?" + Join(Texts(params), '&')
  }

  /** The reading side: after the first `?`, the pairs between `&`, each split at its first `=`. */
  function Params(path: string): seq<Param> {
    match SplitFirst(path, '?').1
    case None => []
    case Some(query) =>
      var parts := Split(query, '&');
      seq(|parts|, i requires 0 <= i < |parts| => ReadParam(parts[i]))
  }

  function ReadParam(part: string): Param {
    var (key, value) := SplitFirst(part, '=');
    (key, FormDecode(if value.Some? then value.value else ""))
  }

  /** A parameter name that needs no encoding. */
  predicate PlainKey(key: string) {
    forall c <- key :: Unreserved(c)
  }

  lemma ParamTextReads(p: Param)
    requires PlainKey(p.0)
    ensures ReadParam(ParamText(p)) == p
    ensures '&' !in ParamText(p)
  {
    assert '=' !in p.0;
    SplitFirstHead(p.0, UrlEncode(p.1), '=');
    assert ParamText(p) == p.0 + ['='] + UrlEncode(p.1);
    DecodeInvertsUrlEncode(p.1);
    EncodedIsInert(p.1);
  }

  /** Reading a built path gives back exactly the parameters, in order, whatever their values. */
  lemma ParamsInvertPath(base: string, params: seq<Param>)
    requires '?' !in base && forall p <- params :: PlainKey(p.0)
    ensures Params(Path(base, params)) == params
  {
    SplitFirstHead(base, Join(Texts(params), '&'), '?');
    if params != [] {
      assert Path(base, params) == base + ['?'] + Join(Texts(params), '&');
      forall i | 0 <= i < |params|
        ensures ReadParam(Texts(params)[i]) == params[i] && '&' !in Texts(params)[i]
      {
        assert params[i] in params;
        ParamTextReads(params[i]);
      }
      SplitInvertsJoin(Texts(params), '&');
    }
  }

  // ---------------------------------------------------------------- decimal parameters

  function Digits(n: nat): string {
    if n < 10 then ['0' + n as char] else Digits(n / 10) + ['0' + (n % 10) as char]
  }

  function Decimal(n: int): string {
    if n < 0 then "-" + Digits(-n) else Digits(n)
  }

  predicate AllDigits(s: string) {
    forall i :: 0 <= i < |s| ==> '0' <= s[i] <= '9'
  }

  function DigitsValue(s: string): nat
    requires AllDigits(s)
  {
    if s == [] then 0 else DigitsValue(s[..|s| - 1]) * 10 + (s[|s| - 1] as int - '0' as int)
  }

  lemma {:induction false} DigitsRead(n: nat)
    ensures AllDigits(Digits(n)) && Digits(n) != [] && DigitsValue(Digits(n)) == n
  {
    if n < 10 {
      assert Digits(n)[..0] == [];
    } else {
      DigitsRead(n / 10);
      assert Digits(n)[..|Digits(n)| - 1] == Digits(n / 10);
    }
  }

  /** A reader of its own: an optional minus sign, then at least one decimal digit. */
  function ReadInt(s: string): Option<int> {
    if s != [] && s[0] == '-' && s[1..] != [] && AllDigits(s[1..]) then Some(0 - DigitsValue(s[1..]) as int)
    else if s != [] && AllDigits(s) then Some(DigitsValue(s))
    else None
  }

  function ReadLimit(s: Option<string>): Option<int> {
    if s.Some? then ReadInt(s.value) else None
  }

  /** What is written reads back as the number, and is written without leading zeros. */
  lemma DecimalReads(n: int)
    ensures ReadInt(Decimal(n)) == Some(n)
    ensures n >= 0 ==> AllDigits(Decimal(n)) && DigitsValue(Decimal(n)) == n
    ensures n < 0 ==> Decimal(n)[0] == '-' && AllDigits(Decimal(n)[1..]) && DigitsValue(Decimal(n)[1..]) == -n
    ensures n > 0 ==> Decimal(n)[0] != '0'
    ensures n < 0 ==> Decimal(n)[1..] != [] && Decimal(n)[1] != '0'
    ensures n == 0 ==> |Decimal(n)| == 1
  {
    var m: nat := if n < 0 then -n else n;
    DigitsRead(m);
    NoLeadingZero(m);
    if n < 0 {
      assert Decimal(n)[1..] == Digits(m);
    }
  }

  lemma {:induction false} NoLeadingZero(n: nat)
    ensures Digits(n) != [] && (n > 0 ==> Digits(n)[0] != '0')
  {
    if n >= 10 {
      NoLeadingZero(n / 10);
    }
  }

  lemma DecimalIsInjective(m: int, n: int)
    requires Decimal(m) == Decimal(n)
    ensures m == n
  {
    DecimalReads(m);
    DecimalReads(n);
  }

  /** Numbers are written into a path as they are: the encoder would not change them. */
  lemma DecimalNeedsNoEncoding(n: int)
    ensures UrlEncode(Decimal(n)) == Decimal(n)
  {
    DigitsRead(if n < 0 then -n else n);
    UnreservedEncodesToItself(Decimal(n));
  }

  // ---------------------------------------------------------------- the three builders

  function Given(key: string, value: Option<string>): seq<Param> {
    if value.Some? then [(key, value.value)] else []
  }

  function DecimalOf(n: Option<int>): Option<string> {
    if n.Some? then Some(Decimal(n.value)) else None
  }

  lemma TextsOfGiven(key: string, value: Option<string>)
    ensures Texts(Given(key, value)) == if value.Some? then [key + "=" + UrlEncode(value.value)] else []
  {}

  const AUDIT := "/v1/admin/audit"
  const DELIVERIES := "/v1/admin/notification-deliveries"
  const SEARCH := "/v1/search"

  function AuditParams(limit: Option<int>, before: Option<string>): seq<Param> {
    Given("limit", DecimalOf(limit)) + Given("before", before)
  }

  function DeliveryParams(channel: Option<string>, status: Option<string>, limit: Option<int>): seq<Param> {
    Given("channel", channel) + Given("status", status) + Given("limit", DecimalOf(limit))
  }

  function SearchParams(q: string, limit: int): seq<Param> {
    [("q", q), ("limit", Decimal(limit))]
  }

  method AuditPath(limit: Option<int>, before: Option<string>) returns (path: string)
    ensures path == Path(AUDIT, AuditParams(limit, before))
  {
    path := AUDIT;
    var parts: seq<string> := [];
    if limit.Some? {
      parts := parts + ["limit=" + Decimal(limit.value)];
      DecimalNeedsNoEncoding(limit.value);
    }
    if before.Some? {
      parts := parts + ["before=" + UrlEncode(before.value)];
    }
    TextsConcat(Given("limit", DecimalOf(limit)), Given("before", before));
    TextsOfGiven("limit", DecimalOf(limit));
    TextsOfGiven("before", before);
    assert "limit" + "=" == "limit=" && "before" + "=" == "before=";
    assert parts == Texts(AuditParams(limit, before));
    if parts != [] {
      path := path + "?";
      path := path + Join(parts, '&');
    }
  }

  lemma DeliveryTexts(channel: Option<string>, status: Option<string>, limit: Option<int>)
    ensures Texts(DeliveryParams(channel, status, limit)) ==
      (if channel.Some? then ["channel=" + UrlEncode(channel.value)] else []) +
      (if status.Some? then ["status=" + UrlEncode(status.value)] else []) +
      (if limit.Some? then ["limit=" + UrlEncode(Decimal(limit.value))] else [])
  {
    TextsConcat(Given("channel", channel), Given("status", status));
    TextsConcat(Given("channel", channel) + Given("status", status), Given("limit", DecimalOf(limit)));
    TextsOfGiven("channel", channel);
    TextsOfGiven("status", status);
    TextsOfGiven("limit", DecimalOf(limit));
    assert "channel" + "=" == "channel=" && "status" + "=" == "status=" && "limit" + "=" == "limit=";
  }

  method DeliveriesPath(channel: Option<string>, status: Option<string>, limit: Option<int>) returns (path: string)
    ensures path == Path(DELIVERIES, DeliveryParams(channel, status, limit))
  {
    path := DELIVERIES;
    var parts: seq<string> := [];
    if channel.Some? {
      parts := parts + ["channel=" + UrlEncode(channel.value)];
    }
    if status.Some? {
      parts := parts + ["status=" + UrlEncode(status.value)];
    }
    if limit.Some? {
      parts := parts + ["limit=" + Decimal(limit.value)];
      DecimalNeedsNoEncoding(limit.value);
    }
    DeliveryTexts(channel, status, limit);
    assert parts == Texts(DeliveryParams(channel, status, limit));
    if parts != [] {
      path := path + "?";
      path := path + Join(parts, '&');
    }
  }

  method SearchPath(q: string, limit: nat) returns (path: string)
    ensures path == Path(SEARCH, SearchParams(q, limit))
  {
    path := SEARCH + "?q=" + UrlEncode(q) + "&limit=" + Decimal(limit);
    DecimalNeedsNoEncoding(limit);
    PathOfTwo(SEARCH, ("q", q), ("limit", Decimal(limit)));
  }

  lemma PathOfTwo(base: string, p: Param, p': Param)
    ensures Path(base, [p, p']) == base + "?" + p.0 + "=" + UrlEncode(p.1) + "&" + p'.0 + "=" + UrlEncode(p'.1)
  {
    var texts := Texts([p, p']);
    assert texts == [ParamText(p), ParamText(p')] && texts[1..] == [ParamText(p')];
    assert Join(texts, '&') == ParamText(p) + "&" + ParamText(p');
  }

  /** The value of the first parameter with a name, if it is there. */
  function Lookup(params: seq<Param>, key: string): Option<string> {
    if params == [] then None
    else if params[0].0 == key then Some(params[0].1)
    else Lookup(params[1..], key)
  }

  lemma LookupGiven(key: string, value: Option<string>, rest: seq<Param>, other: string)
    ensures Lookup(Given(key, value) + rest, other) ==
            if key == other && value.Some? then value else Lookup(rest, other)
  {
    if value.Some? {
      assert (Given(key, value) + rest)[1..] == rest;
    } else {
      assert Given(key, value) + rest == rest;
    }
  }

  lemma LimitReads(limit: Option<int>)
    ensures ReadLimit(DecimalOf(limit)) == limit
  {
    if limit.Some? {
      DecimalReads(limit.value);
    }
  }

  /** Every option, absent or present with any value, can be read back from the audit path. */
  lemma AuditPathIsUnambiguous(limit: Option<int>, before: Option<string>, limit': Option<int>, before': Option<string>)
    ensures var params := Params(Path(AUDIT, AuditParams(limit, before)));
      ReadLimit(Lookup(params, "limit")) == limit && Lookup(params, "before") == before
    ensures Path(AUDIT, AuditParams(limit, before)) == Path(AUDIT, AuditParams(limit', before')) ==>
      limit == limit' && before == before'
  {
    ReadAudit(limit, before);
    ReadAudit(limit', before');
    LimitReads(limit);
    LimitReads(limit');
  }

  lemma ReadAudit(limit: Option<int>, before: Option<string>)
    ensures var params := Params(Path(AUDIT, AuditParams(limit, before)));
      Lookup(params, "limit") == DecimalOf(limit) && Lookup(params, "before") == before
  {
    ParamsInvertPath(AUDIT, AuditParams(limit, before));
    var rest := Given("before", before);
    assert rest == rest + [];
    LookupGiven("limit", DecimalOf(limit), rest, "limit");
    LookupGiven("limit", DecimalOf(limit), rest, "before");
    LookupGiven("before", before, [], "limit");
    LookupGiven("before", before, [], "before");
  }

  lemma DeliveriesPathIsUnambiguous(channel: Option<string>, status: Option<string>, limit: Option<int>,
                                    channel': Option<string>, status': Option<string>, limit': Option<int>)
    ensures var params := Params(Path(DELIVERIES, DeliveryParams(channel, status, limit)));
      Lookup(params, "channel") == channel && Lookup(params, "status") == status
      && ReadLimit(Lookup(params, "limit")) == limit
    ensures (Path(DELIVERIES, DeliveryParams(channel, status, limit)) ==
             Path(DELIVERIES, DeliveryParams(channel', status', limit'))) ==>
      channel == channel' && status == status' && limit == limit'
  {
    ReadDeliveries(channel, status, limit);
    ReadDeliveries(channel', status', limit');
    LimitReads(limit);
    LimitReads(limit');
  }

  lemma ReadDeliveries(channel: Option<string>, status: Option<string>, limit: Option<int>)
    ensures var params := Params(Path(DELIVERIES, DeliveryParams(channel, status, limit)));
      Lookup(params, "channel") == channel && Lookup(params, "status") == status
      && Lookup(params, "limit") == DecimalOf(limit)
  {
    ParamsInvertPath(DELIVERIES, DeliveryParams(channel, status, limit));
    LookupThird(channel, status, limit, "channel");
    LookupThird(channel, status, limit, "status");
    LookupThird(channel, status, limit, "limit");
  }

  lemma LookupThird(channel: Option<string>, status: Option<string>, limit: Option<int>, key: string)
    ensures Lookup(DeliveryParams(channel, status, limit), key) ==
      if key == "channel" && channel.Some? then channel
      else if key == "status" && status.Some? then status
      else if key == "limit" then DecimalOf(limit) else None
  {
    var last := Given("limit", DecimalOf(limit));
    var rest := Given("status", status) + last;
    assert DeliveryParams(channel, status, limit) == Given("channel", channel) + rest && last == last + [];
    LookupGiven("channel", channel, rest, key);
    LookupGiven("status", status, last, key);
    LookupGiven("limit", DecimalOf(limit), [], key);
  }

  /** The search path carries the query text, whatever it is, and the limit. */
  lemma SearchPathReads(q: string, limit: nat)
    ensures var params := Params(Path(SEARCH, SearchParams(q, limit)));
      Lookup(params, "q") == Some(q) && ReadLimit(Lookup(params, "limit")) == Some(limit)
  {
    ParamsInvertPath(SEARCH, SearchParams(q, limit));
    assert SearchParams(q, limit)[1..] == [("limit", Decimal(limit))];
    DecimalReads(limit);
  }

  /** The three paths, spelled out: which endpoint, which names, which separators. */
  lemma AuditSpelledOut(limit: int, before: string)
    ensures Path(AUDIT, AuditParams(None, None)) == "/v1/admin/audit"
    ensures Path(AUDIT, AuditParams(Some(limit), Some(before))) ==
            "/v1/admin/audit" + "?" + "limit" + "=" + Decimal(limit) + "&" + "before" + "=" + UrlEncode(before)
  {
    DecimalNeedsNoEncoding(limit);
    PathOfTwo(AUDIT, ("limit", Decimal(limit)), ("before", before));
    assert AuditParams(Some(limit), Some(before)) == [("limit", Decimal(limit)), ("before", before)];
  }

  lemma DeliveriesSpelledOut(channel: string, status: string)
    ensures Path(DELIVERIES, DeliveryParams(Some(channel), Some(status), None)) ==
            "/v1/admin/notification-deliveries" + "?" + "channel" + "=" + UrlEncode(channel) + "&" + "status" + "=" + UrlEncode(status)
  {
    PathOfTwo(DELIVERIES, ("channel", channel), ("status", status));
    assert DeliveryParams(Some(channel), Some(status), None) == [("channel", channel), ("status", status)];
  }

  lemma SearchSpelledOut(q: string, limit: nat)
    ensures Path(SEARCH, SearchParams(q, limit)) ==
            "/v1/search" + "?" + "q" + "=" + UrlEncode(q) + "&" + "limit" + "=" + Decimal(limit)
  {
    DecimalNeedsNoEncoding(limit);
    PathOfTwo(SEARCH, ("q", q), ("limit", Decimal(limit)));
  }

  // ---------------------------------------------------------------- the page's own query

  function TrimQuestionMarks(s: string): string {
    if s != [] && s[0] == '?' then TrimQuestionMarks(s[1..]) else s
  }

  /** The decoded value of the first pair named `q`; empty when there is none. */
  function FirstQ(pairs: seq<string>): string {
    if pairs == [] then []
    else if SplitFirst(pairs[0], '=').0 == "q" then ReadParam(pairs[0]).1
    else FirstQ(pairs[1..])
  }

  function InitialSearchQuery(search: string): string {
    FirstQ(Split(TrimQuestionMarks(search), '&'))
  }

  /** The search page recovers exactly the text it was opened with, whatever follows it. */
  lemma InitialSearchQueryReadsBack(q: string, suffix: string)
    requires suffix != [] ==> suffix[0] == '&'
    ensures InitialSearchQuery("?q=" + UrlEncode(q) + suffix) == q
  {
    var first := ParamText(("q", q));
    ParamTextReads(("q", q));
    SearchText(UrlEncode(q), suffix);
    TrimOne(first + suffix);
    FirstPiece(first, suffix);
    assert ReadParam(first).0 == "q";
  }

  lemma SearchText(text: string, suffix: string)
    ensures "?q=" + text + suffix == "?" + (("q" + "=" + text) + suffix)
  {
    assert "?q=" == "?" + "q=" && "q=" == "q" + "=";
  }

  lemma FirstPiece(first: string, suffix: string)
    requires '&' !in first && (suffix != [] ==> suffix[0] == '&')
    ensures Split(first + suffix, '&')[0] == first
  {
    if suffix == [] {
      assert first + suffix == first;
      SplitHead(first, [], '&');
    } else {
      assert first + suffix == first + ['&'] + suffix[1..];
      SplitHead(first, suffix[1..], '&');
    }
  }

  lemma TrimOne(query: string)
    requires query != [] ==> query[0] != '?'
    ensures TrimQuestionMarks("?" + query) == query
  {
    assert ("?" + query)[1..] == query;
  }

  lemma JoinStart(parts: seq<string>, sep: char)
    requires parts != [] && parts[0] != []
    ensures Join(parts, sep) != [] && Join(parts, sep)[0] == parts[0][0]
  {}

  /** On any query the application builds, it finds the first parameter named `q`. */
  lemma InitialSearchQueryIsLookup(params: seq<Param>)
    requires forall p <- params :: PlainKey(p.0)
    ensures InitialSearchQuery("?" + Join(Texts(params), '&')) ==
            var q := Lookup(params, "q"); if q.Some? then q.value else ""
  {
    var query := Join(Texts(params), '&');
    if params == [] {
      TrimOne(query);
      assert query == "" && Split(query, '&') == [""];
      assert FirstQ([""]) == FirstQ([]);
    } else {
      assert params[0] in params;
      assert params[0].0 != [] ==> params[0].0[0] in params[0].0;
      JoinStart(Texts(params), '&');
      TrimOne(query);
      forall i | 0 <= i < |params|
        ensures '&' !in Texts(params)[i]
      {
        assert params[i] in params;
        ParamTextReads(params[i]);
      }
      SplitInvertsJoin(Texts(params), '&');
      FirstQIsLookup(params);
    }
  }

  lemma {:induction false} FirstQIsLookup(params: seq<Param>)
    requires forall p <- params :: PlainKey(p.0)
    ensures FirstQ(Texts(params)) == var q := Lookup(params, "q"); if q.Some? then q.value else ""
  {
    if params != [] {
      assert params[0] in params;
      ParamTextReads(params[0]);
      assert Texts(params)[1..] == Texts(params[1..]);
      FirstQIsLookup(params[1..]);
    }
  }

  // ---------------------------------------------------------------- queries the application did not build

  /** A first parameter `q` is read as a form value, whatever text it has and whatever follows. */
  lemma FirstQReads(value: string, suffix: string)
    requires '&' !in value && (suffix != [] ==> suffix[0] == '&')
    ensures InitialSearchQuery("?q=" + value + suffix) == FormDecode(value)
  {
    var first := "q" + ['='] + value;
    SplitFirstHead("q", value, '=');
    SearchText(value, suffix);
    TrimOne(first + suffix);
    assert '&' !in first;
    FirstPiece(first, suffix);
  }

  lemma {:induction false} FormTextHasNoSeparator(words: seq<string>)
    ensures '&' !in FormText(words)
  {
    if words != [] {
      EncodedIsInert(words[0]);
      FormTextHasNoSeparator(words[1..]);
    }
  }

  /** A search sent by a form: the page reads the words with single spaces between them. */
  lemma InitialSearchQueryReadsForm(words: seq<string>, suffix: string)
    requires suffix != [] ==> suffix[0] == '&'
    ensures InitialSearchQuery("?q=" + FormText(words) + suffix) == Spaced(words)
  {
    FormTextHasNoSeparator(words);
    FirstQReads(FormText(words), suffix);
    PlusReadsAsSpace(words);
  }

  lemma {:induction false} TrimAll(marks: string, query: string)
    requires forall i :: 0 <= i < |marks| ==> marks[i] == '?'
    ensures TrimQuestionMarks(marks + query) == TrimQuestionMarks(query)
  {
    if marks == [] {
      assert marks + query == query;
    } else {
      assert (marks + query)[1..] == marks[1..] + query;
      TrimAll(marks[1..], query);
    }
  }

  /** Any number of leading question marks is the same as none. */
  lemma QuestionMarksDoNotMatter(marks: string, query: string)
    requires forall i :: 0 <= i < |marks| ==> marks[i] == '?'
    ensures InitialSearchQuery(marks + query) == InitialSearchQuery(query)
  {
    TrimAll(marks, query);
  }

  /** A `q` without an equals sign counts, as empty, and a parameter that is not `q` is passed over. */
  lemma BareQIsEmpty(other: string, rest: string)
    requires '&' !in other && '?' !in other && SplitFirst(other, '=').0 != "q"
    ensures InitialSearchQuery("q&" + rest) == ""
    ensures InitialSearchQuery(other + "&" + rest) == FirstQ(Split(rest, '&'))
  {
    assert "q&" + rest == "q" + ['&'] + rest && "q&" + rest != [] && ("q&" + rest)[0] == 'q';
    SplitHead("q", rest, '&');
    SplitFirstHead("q", [], '=');
    UnreservedEncodesToItself("");
    DecodeInvertsUrlEncode("");
    SplitHead(other, rest, '&');
    assert other + "&" + rest == other + ['&'] + rest;
    assert (other + "&" + rest)[0] != '?';
    assert ([other] + Split(rest, '&'))[1..] == Split(rest, '&');
  }
}
