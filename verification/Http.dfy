/** The incremental parser of HTTP requests. */
module Http {
  import opened Buffers

  datatype Method = Invalid | Get | Post | Head | Put | Delete

  datatype Version = Unknown | Http10 | Http11

  datatype Request = Request(method_: Method, version: Version, path: string, query: string, headers: map<string, string>)

  const FRESH := Request(Invalid, Unknown, "", "", map[])

  function MethodOf(word: string): Method {
    if word == "GET" then Get
    else if word == "POST" then Post
    else if word == "HEAD" then Head
    else if word == "PUT" then Put
    else if word == "DELETE" then Delete
    else Invalid
  }

  function MethodText(m: Method): string {
    match m
    case Get => "GET"
    case Post => "POST"
    case Head => "HEAD"
    case Put => "PUT"
    case Delete => "DELETE"
    case Invalid => "UNKNOWN"
  }

  function VersionOf(word: string): Version {
    if word == "HTTP/1.1" then Http11 else if word == "HTTP/1.0" then Http10 else Unknown
  }

  function VersionText(v: Version): string {
    if v == Http11 then "HTTP/1.1" else if v == Http10 then "HTTP/1.0" else ""
  }

  /** The request target: up to a question mark the path, from there on the query. */
  function WithTarget(r: Request, target: string): Request {
    var question := Find(target, '?');
    if question < |target| then r.(path := target[..question], query := target[question..]) else r.(path := target)
  }

  /** A request line fills the request as far as it can be read. */
  function ReadRequestLine(r: Request, line: string): (bool, Request) {
    var space := Find(line, ' ');
    if space == |line| then (false, r)
    else
      var r := r.(method_ := MethodOf(line[..space]));
      var rest := line[space + 1..];
      var end := Find(rest, ' ');
      if r.method_ == Invalid || end == |rest| then (false, r)
      else
        var r, v := WithTarget(r, rest[..end]), VersionOf(rest[end + 1..]);
        if v == Unknown then (false, r) else (true, r.(version := v))
  }

  function TrimLeft(s: string): string {
    if s != "" && IsSpace(s[0]) then TrimLeft(s[1..]) else s
  }

  function TrimRight(s: string): string {
    if s != "" && IsSpace(s[|s| - 1]) then TrimRight(s[..|s| - 1]) else s
  }

  /** A header line with a colon: a later one with the same field replaces an earlier one. */
  function WithHeader(r: Request, line: string): Request
    requires ':' in line
  {
    var colon := Find(line, ':');
    r.(headers := r.headers[line[..colon] := TrimRight(TrimLeft(line[colon + 1..]))])
  }

  datatype State = ExpectRequestLine | ExpectHeaders | ExpectBody | GotAll

  datatype Context = Context(state: State, request: Request)

  /** The parser has work to do: it is at the start of a request, or among its headers. */
  predicate Reading(c: Context) {
    (c.state == ExpectRequestLine && c.request.method_ == Invalid) || c.state == ExpectHeaders
  }

  datatype Outcome = Outcome(ok: bool, context: Context, left: string)

  /** What the parser makes of the bytes at hand. */
  function Parse(c: Context, s: string): (o: Outcome)
    requires Reading(c)
    ensures o.ok && o.context.state != GotAll ==> Reading(o.context)
    decreases |s|
  {
    var crlf := FindCrlf(s, 0);
    if crlf == -1 then Outcome(true, c, s)
    else
      var line, rest := s[..crlf], s[crlf + 2..];
      if c.state == ExpectRequestLine then
        var (ok, r) := ReadRequestLine(c.request, line);
        if ok then Parse(Context(ExpectHeaders, r), rest) else Outcome(false, c.(request := r), s)
      else if Find(line, ':') < |line| then Parse(c.(request := WithHeader(c.request, line)), rest)
      else Outcome(true, c.(state := GotAll), rest)
  }

  // ---------- fragmentation ----------

  /** More bytes: they are read when the parser still is, and wait when it has stopped. */
  function Then(o: Outcome, b: string): Outcome
    requires o.ok && o.context.state != GotAll ==> Reading(o.context)
  {
    if o.ok && o.context.state != GotAll then Parse(o.context, o.left + b) else o.(left := o.left + b)
  }

  lemma {:induction false} ParseSplit(c: Context, a: string, b: string)
    requires Reading(c)
    ensures Parse(c, a + b) == Then(Parse(c, a), b)
    decreases |a|
  {
    hide ReadRequestLine, WithHeader, Find;
    FindCrlfGrows(a, b, 0);
    var crlf := FindCrlf(a, 0);
    if crlf >= 0 {
      var line, rest := a[..crlf], a[crlf + 2..];
      assert (a + b)[..crlf] == line && (a + b)[crlf + 2..] == rest + b;
      if c.state == ExpectRequestLine {
        var (ok, r) := ReadRequestLine(c.request, line);
        if ok { ParseSplit(Context(ExpectHeaders, r), rest, b); }
      } else if Find(line, ':') < |line| {
        ParseSplit(c.(request := WithHeader(c.request, line)), rest, b);
      }
    }
  }

  function Deliver(o: Outcome, chunks: seq<string>): Outcome
    requires o.ok && o.context.state != GotAll ==> Reading(o.context)
    decreases chunks
  {
    if chunks == [] then o else Deliver(Then(o, chunks[0]), chunks[1..])
  }

  /** However a stream is cut, the request line, the headers, the state and the bytes left over are the same. */
  lemma {:induction false} FragmentationFree(c: Context, a: string, chunks: seq<string>)
    requires Reading(c)
    ensures Deliver(Parse(c, a), chunks) == Parse(c, a + Concat(chunks))
    decreases chunks
  {
    hide Parse, Then;
    if chunks == [] {
      assert a + Concat(chunks) == a;
    } else {
      ParseSplit(c, a, chunks[0]);
      assert a + Concat(chunks) == a + chunks[0] + Concat(chunks[1..]);
      FragmentationFree(c, a + chunks[0], chunks[1..]);
    }
  }

  // ---------- which request lines are accepted ----------

  lemma FindFirst(s: string, c: char, t: string)
    requires c !in s
    ensures Find(s + [c] + t, c) == |s|
  {
    var u := s + [c] + t;
    assert u[|s|] == c && forall k :: 0 <= k < |s| ==> u[k] == s[k];
  }

  /** A text is cut at the first `c`: before it there is none. */
  lemma CutAt(s: string, c: char) returns (before: string, after: string)
    requires Find(s, c) < |s|
    ensures before == s[..Find(s, c)] && after == s[Find(s, c) + 1..] && c !in before && s == before + [c] + after
  {
    before, after := s[..Find(s, c)], s[Find(s, c) + 1..];
  }

  lemma MethodRoundTrip(word: string)
    ensures MethodOf(word) != Invalid ==> MethodText(MethodOf(word)) == word && ' ' !in word
    ensures forall m :: m != Invalid ==> MethodOf(MethodText(m)) == m && ' ' !in MethodText(m)
  {
  }

  lemma VersionRoundTrip(word: string)
    ensures VersionOf(word) != Unknown ==> VersionText(VersionOf(word)) == word
    ensures forall v :: v != Unknown ==> VersionOf(VersionText(v)) == v
  {
  }

  lemma Spelling()
    ensures MethodText(Get) == "GET" && MethodText(Post) == "POST" && MethodText(Head) == "HEAD"
    ensures MethodText(Put) == "PUT" && MethodText(Delete) == "DELETE"
    ensures VersionText(Http10) == "HTTP/1.0" && VersionText(Http11) == "HTTP/1.1"
  {
  }

  function LineText(m: Method, target: string, v: Version): string {
    MethodText(m) + " " + target + " " + VersionText(v)
  }

  /** Text of the documented form is accepted and fills in what it says. */
  lemma AcceptsLine(r: Request, m: Method, target: string, v: Version)
    requires m != Invalid && v != Unknown && ' ' !in target
    ensures ReadRequestLine(r, LineText(m, target, v)) == (true, WithTarget(r.(method_ := m), target).(version := v))
  {
    MethodRoundTrip("");
    VersionRoundTrip("");
    hide MethodText, VersionText, MethodOf, VersionOf;
    var line, rest := LineText(m, target, v), target + " " + VersionText(v);
    assert line == MethodText(m) + [' '] + rest && rest == target + [' '] + VersionText(v);
    FindFirst(MethodText(m), ' ', rest);
    FindFirst(target, ' ', VersionText(v));
    assert line[..|MethodText(m)|] == MethodText(m) && line[|MethodText(m)| + 1..] == rest;
    assert rest[..|target|] == target && rest[|target| + 1..] == VersionText(v);
  }

  /** Nothing else is accepted. */
  lemma OnlyAcceptsLine(r: Request, line: string) returns (target: string)
    requires ReadRequestLine(r, line).0
    ensures var r' := ReadRequestLine(r, line).1;
            ' ' !in target && r'.method_ != Invalid && r'.version != Unknown &&
            line == LineText(r'.method_, target, r'.version) &&
            r' == WithTarget(r.(method_ := r'.method_), target).(version := r'.version)
  {
    hide MethodText, VersionText, MethodOf, VersionOf, Find;
    var word, rest := CutAt(line, ' ');
    var version;
    target, version := CutAt(rest, ' ');
    MethodRoundTrip(word);
    VersionRoundTrip(version);
    assert line == word + " " + target + " " + version;
  }

  /** Path and query rebuild the target, so an accepted line can be printed and read again. */
  lemma Reparse(line: string)
    requires ReadRequestLine(FRESH, line).0
    ensures var r := ReadRequestLine(FRESH, line).1;
            LineText(r.method_, r.path + r.query, r.version) == line &&
            ReadRequestLine(FRESH, LineText(r.method_, r.path + r.query, r.version)) == (true, r)
  {
    var target := OnlyAcceptsLine(FRESH, line);
    hide ReadRequestLine;
    var question := Find(target, '?');
    assert target == target[..question] + target[question..] && target + "" == target;
  }

  /** A target as the client means it: a path without a question mark, and a query that begins with one or is empty. */
  predicate IsTarget(path: string, query: string) {
    ' ' !in path && ' ' !in query && '?' !in path && (query != "" ==> query[0] == '?')
  }

  lemma TargetMeans(r: Request, path: string, query: string)
    requires IsTarget(path, query)
    ensures WithTarget(r, path + query) == r.(path := path, query := if query == "" then r.query else query)
  {
    var target := path + query;
    assert forall k :: 0 <= k < |path| ==> target[k] == path[k];
    if query != "" {
      assert target[|path|] == '?';
      assert Find(target, '?') == |path| && target[..|path|] == path && target[|path|..] == query;
    } else {
      assert target == path;
    }
  }

  /** An accepted line fills the request with just these parts; a query is kept where the target has none. */
  lemma AcceptsTarget(r: Request, m: Method, path: string, query: string, v: Version)
    requires m != Invalid && v != Unknown && IsTarget(path, query)
    ensures ReadRequestLine(r, LineText(m, path + query, v))
         == (true, Request(m, v, path, if query == "" then r.query else query, r.headers))
  {
    AcceptsLine(r, m, path + query, v);
    TargetMeans(r.(method_ := m), path, query);
    hide LineText, ReadRequestLine, WithTarget;
  }

  /** Where an accepted line is cut: at the first question mark, and if there is none the old query stays. */
  lemma TargetCut(r: Request, line: string) returns (query: string)
    requires ReadRequestLine(r, line).0
    ensures var r' := ReadRequestLine(r, line).1;
            IsTarget(r'.path, query) && line == LineText(r'.method_, r'.path + query, r'.version) &&
            r'.query == (if query == "" then r.query else query) && r'.headers == r.headers
  {
    var target := OnlyAcceptsLine(r, line);
    hide ReadRequestLine, LineText, WithTarget, IsTarget;
    var path;
    path, query := SplitTarget(target);
    TargetMeans(r.(method_ := ReadRequestLine(r, line).1.method_), path, query);
  }

  lemma SplitTarget(target: string) returns (path: string, query: string)
    requires ' ' !in target
    ensures IsTarget(path, query) && target == path + query
  {
    var question := Find(target, '?');
    path, query := target[..question], target[question..];
  }

  /** Read into a fresh request, path and query are the two parts of the target, and nothing else. */
  lemma FreshTarget(line: string)
    requires ReadRequestLine(FRESH, line).0
    ensures var r := ReadRequestLine(FRESH, line).1; '?' !in r.path && (r.query == "" || r.query[0] == '?')
  {
    var query := TargetCut(FRESH, line);
  }

  /**
   After a rejected line the parser may go on only after a reset, unless the method is still unset: that
   is so if and only if there was no space, or no method in front of it.
   */
  lemma RejectedExactly(r: Request, line: string)
    requires r.method_ == Invalid && !ReadRequestLine(r, line).0
    ensures ReadRequestLine(r, line).1.method_ == Invalid
       <==> Find(line, ' ') == |line| || MethodOf(line[..Find(line, ' ')]) == Invalid
  {
    hide MethodOf, VersionOf, Find;
  }

  /** The same for the parser: what it is left with after a rejected line. */
  lemma RejectedLeaves(c: Context, line: string, rest: string)
    requires c.state == ExpectRequestLine && c.request.method_ == Invalid && NoCrlf(line)
    requires !ReadRequestLine(c.request, line).0
    ensures var s := line + "\r\n" + rest;
            var o := Parse(c, s);
            !o.ok && o.left == s && o.context.state == ExpectRequestLine &&
            (Reading(o.context) <==> Find(line, ' ') == |line| || MethodOf(line[..Find(line, ' ')]) == Invalid)
  {
    var s := line + "\r\n" + rest;
    FirstLine(s, line, rest);
    RejectedExactly(c.request, line);
    hide MethodOf, Find, ReadRequestLine, FindCrlf;
  }

  /** A line that needs the reset: a method, and no second space. */
  lemma NeedsReset()
    ensures var o := Parse(Context(ExpectRequestLine, FRESH), "GET /\r\n"); !o.ok && !Reading(o.context)
  {
    var line := "GET /";
    assert line == "GET" + [' '] + "/" && line[..3] == "GET" && line[4..] == "/";
    FindFirst("GET", ' ', "/");
    assert Find("/", ' ') == 1;
    assert !ReadRequestLine(FRESH, line).0;
    assert '\r' !in line && line + "\r\n" + "" == "GET /\r\n";
    hide ReadRequestLine, Find, MethodOf, Parse;
    assert MethodOf("GET") == Get by { MethodRoundTrip("GET"); }
    RejectedLeaves(Context(ExpectRequestLine, FRESH), line, "");
  }

  // ---------- where a request ends ----------

  function Lines(lines: seq<string>): string {
    if lines == [] then "" else lines[0] + "\r\n" + Lines(lines[1..])
  }

  ghost predicate AreHeaders(lines: seq<string>) {
    forall i :: 0 <= i < |lines| ==> NoCrlf(lines[i]) && ':' in lines[i]
  }

  function WithHeaders(r: Request, lines: seq<string>): Request
    requires forall i :: 0 <= i < |lines| ==> ':' in lines[i]
    decreases lines
  {
    if lines == [] then r else WithHeaders(WithHeader(r, lines[0]), lines[1..])
  }

  /** The headers end with the first line that has no colon, and the next byte is the first one left over. */
  lemma {:induction false} HeadersEnd(r: Request, lines: seq<string>, last: string, tail: string)
    requires AreHeaders(lines) && NoCrlf(last) && ':' !in last
    ensures Parse(Context(ExpectHeaders, r), Lines(lines) + last + "\r\n" + tail)
         == Outcome(true, Context(GotAll, WithHeaders(r, lines)), tail)
    decreases lines
  {
    hide Parse, WithHeader;
    var s := Lines(lines) + last + "\r\n" + tail;
    if lines == [] {
      HeaderStep(r, s, last, tail);
    } else {
      var rest := Lines(lines[1..]) + last + "\r\n" + tail;
      assert s == lines[0] + "\r\n" + rest;
      HeaderStep(r, s, lines[0], rest);
      HeadersEnd(WithHeader(r, lines[0]), lines[1..], last, tail);
    }
  }

  lemma HeaderStep(r: Request, s: string, line: string, rest: string)
    requires NoCrlf(line) && s == line + "\r\n" + rest
    ensures ':' in line ==> Parse(Context(ExpectHeaders, r), s) == Parse(Context(ExpectHeaders, WithHeader(r, line)), rest)
    ensures ':' !in line ==> Parse(Context(ExpectHeaders, r), s) == Outcome(true, Context(GotAll, r), rest)
  {
    hide WithHeader, FindCrlf, Find;
    FirstLine(s, line, rest);
  }

  lemma Waits(r: Request, s: string)
    requires FindCrlf(s, 0) == -1
    ensures Parse(Context(ExpectHeaders, r), s) == Outcome(true, Context(ExpectHeaders, r), s)
  {
  }

  lemma TakeLine(s: string) returns (line: string, rest: string)
    requires FindCrlf(s, 0) >= 0
    ensures line == s[..FindCrlf(s, 0)] && rest == s[FindCrlf(s, 0) + 2..]
    ensures NoCrlf(line) && s == line + "\r\n" + rest
  {
    var n := FindCrlf(s, 0);
    line, rest := s[..n], s[n + 2..];
    forall i ensures !CrlfAt(line, i) {
      assert CrlfAt(line, i) ==> CrlfAt(s, i);
    }
  }

  /** And only so: a request that is complete consists of lines with a colon and one without. */
  lemma {:induction false} HeadersEndOnlySo(r: Request, s: string) returns (lines: seq<string>, last: string)
    requires Parse(Context(ExpectHeaders, r), s).context.state == GotAll
    ensures AreHeaders(lines) && NoCrlf(last) && ':' !in last
    ensures s == Lines(lines) + last + "\r\n" + Parse(Context(ExpectHeaders, r), s).left
    decreases |s|
  {
    hide Parse, WithHeader, FindCrlf, Lines, CrlfAt;
    if FindCrlf(s, 0) == -1 { Waits(r, s); }
    var line, rest := TakeLine(s);
    HeaderStep(r, s, line, rest);
    if ':' in line {
      var more;
      more, last := HeadersEndOnlySo(WithHeader(r, line), rest);
      lines := [line] + more;
      OneMoreLine(line, more, last, Parse(Context(ExpectHeaders, r), s).left);
    } else {
      lines, last := [], line;
      NoLines(last, rest);
    }
  }

  /** A whole request: an accepted line, lines with a colon, one without. What follows is left over. */
  lemma RequestEnds(c: Context, line: string, lines: seq<string>, last: string, tail: string)
    requires c.state == ExpectRequestLine && c.request.method_ == Invalid
    requires NoCrlf(line) && ReadRequestLine(c.request, line).0
    requires AreHeaders(lines) && NoCrlf(last) && ':' !in last
    ensures Parse(c, line + "\r\n" + (Lines(lines) + last + "\r\n" + tail))
         == Outcome(true, Context(GotAll, WithHeaders(ReadRequestLine(c.request, line).1, lines)), tail)
  {
    hide ReadRequestLine, Lines, WithHeaders, FindCrlf;
    var rest := Lines(lines) + last + "\r\n" + tail;
    FirstLine(line + "\r\n" + rest, line, rest);
    HeadersEnd(ReadRequestLine(c.request, line).1, lines, last, tail);
  }

  /** And only so: whenever a request is complete, its bytes are of that form. */
  lemma RequestEndsOnlySo(c: Context, s: string) returns (line: string, lines: seq<string>, last: string)
    requires c.state == ExpectRequestLine && c.request.method_ == Invalid && Parse(c, s).context.state == GotAll
    ensures NoCrlf(line) && ReadRequestLine(c.request, line).0 && AreHeaders(lines) && NoCrlf(last) && ':' !in last
    ensures s == line + "\r\n" + (Lines(lines) + last + "\r\n" + Parse(c, s).left)
  {
    var rest;
    line, rest := TakeLine(s);
    hide ReadRequestLine, Lines, WithHeaders, FindCrlf;
    lines, last := HeadersEndOnlySo(ReadRequestLine(c.request, line).1, rest);
  }

  lemma OneMoreLine(line: string, lines: seq<string>, last: string, tail: string)
    ensures Lines([line] + lines) + last + "\r\n" + tail == line + "\r\n" + (Lines(lines) + last + "\r\n" + tail)
  {
    assert ([line] + lines)[1..] == lines;
  }

  lemma NoLines(last: string, tail: string)
    ensures Lines([]) + last + "\r\n" + tail == last + "\r\n" + tail
  {
  }

  // ---------- printing a whole request ----------

  /** A header as written, with white space on both sides of the value. */
  datatype Header = Header(field: string, left: string, value: string, right: string)

  function HeaderText(h: Header): string {
    h.field + ":" + h.left + h.value + h.right
  }

  /** Space, tab, line feed, vertical tab, form feed, carriage return. */
  const BLANKS := [32 as char, 9 as char, 10 as char, 11 as char, 12 as char, 13 as char]

  ghost predicate IsBlank(s: string) {
    forall i :: 0 <= i < |s| ==> s[i] in BLANKS
  }

  /** A header whose text is one line, and whose value neither begins nor ends with white space. */
  ghost predicate Printable(h: Header) {
    ':' !in h.field && NoCrlf(HeaderText(h)) && IsBlank(h.left) && IsBlank(h.right) &&
    (h.value != "" ==> h.value[0] !in BLANKS && h.value[|h.value| - 1] !in BLANKS)
  }

  function HeaderTexts(hs: seq<Header>): (r: seq<string>)
    ensures |r| == |hs| && forall i :: 0 <= i < |hs| ==> r[i] == HeaderText(hs[i])
  {
    if hs == [] then [] else [HeaderText(hs[0])] + HeaderTexts(hs[1..])
  }

  function Stored(headers: map<string, string>, hs: seq<Header>): map<string, string>
    decreases hs
  {
    if hs == [] then headers else Stored(headers[hs[0].field := hs[0].value], hs[1..])
  }

  lemma {:induction false} LeftTrimmed(left: string, rest: string)
    requires IsBlank(left) && (rest != "" ==> rest[0] !in BLANKS)
    ensures TrimLeft(left + rest) == rest
    decreases left
  {
    if left == "" {
      assert left + rest == rest;
    } else {
      assert (left + rest)[1..] == left[1..] + rest && (left + rest)[0] == left[0];
      LeftTrimmed(left[1..], rest);
    }
  }

  lemma {:induction false} RightTrimmed(rest: string, right: string)
    requires IsBlank(right) && (rest != "" ==> rest[|rest| - 1] !in BLANKS)
    ensures TrimRight(rest + right) == rest
    decreases |right|
  {
    var s := rest + right;
    if right == "" {
      assert s == rest;
    } else {
      assert s[..|s| - 1] == rest + right[..|right| - 1] && s[|s| - 1] == right[|right| - 1];
      RightTrimmed(rest, right[..|right| - 1]);
    }
  }

  /** White space around the value is dropped, on either side and however much there is. */
  lemma Trimmed(left: string, value: string, right: string)
    requires IsBlank(left) && IsBlank(right)
    requires value != "" ==> value[0] !in BLANKS && value[|value| - 1] !in BLANKS
    ensures TrimRight(TrimLeft(left + value + right)) == value
  {
    if value == "" {
      assert left + value + right == left + right + "";
      LeftTrimmed(left + right, "");
    } else {
      assert left + value + right == left + (value + right);
      LeftTrimmed(left, value + right);
      RightTrimmed(value, right);
    }
  }

  lemma HeaderPrinted(r: Request, h: Header)
    requires Printable(h)
    ensures ':' in HeaderText(h)
    ensures WithHeader(r, HeaderText(h)) == r.(headers := r.headers[h.field := h.value])
  {
    var text, rest := HeaderText(h), h.left + h.value + h.right;
    FindFirst(h.field, ':', rest);
    assert text == h.field + [':'] + rest;
    assert text[|h.field|] == ':' && text[..|h.field|] == h.field && text[|h.field| + 1..] == rest;
    Trimmed(h.left, h.value, h.right);
  }

  lemma {:induction false} HeadersPrinted(r: Request, hs: seq<Header>)
    requires forall i :: 0 <= i < |hs| ==> Printable(hs[i])
    ensures AreHeaders(HeaderTexts(hs))
    ensures WithHeaders(r, HeaderTexts(hs)) == r.(headers := Stored(r.headers, hs))
    decreases hs
  {
    hide WithHeader, HeaderText;
    if hs != [] {
      HeaderPrinted(r, hs[0]);
      HeadersPrinted(r.(headers := r.headers[hs[0].field := hs[0].value]), hs[1..]);
      assert HeaderTexts(hs)[1..] == HeaderTexts(hs[1..]);
      assert NoCrlf(HeaderTexts(hs)[0]);
    }
  }

  lemma LineIsLine(m: Method, target: string, v: Version)
    requires NoCrlf(target)
    ensures NoCrlf(LineText(m, target, v))
  {
    var before, after, line := MethodText(m) + " ", " " + VersionText(v), LineText(m, target, v);
    assert line == before + target + after;
    assert '\r' !in before && '\r' !in after && after[0] != '\n';
    hide MethodText, VersionText, LineText;
    forall i ensures !CrlfAt(line, i) {
      assert CrlfAt(line, i) ==> |before| <= i < |before| + |target| - 1;
      assert CrlfAt(line, i) ==> CrlfAt(target, i - |before|);
    }
  }

  function RequestText(m: Method, target: string, v: Version, hs: seq<Header>): string {
    LineText(m, target, v) + "\r\n" + Lines(HeaderTexts(hs)) + "\r\n"
  }

  /** A printed request is read back field by field, and what follows it is left in the buffer. A version
      kept from the request before, as a reset does, makes no difference. */
  lemma RequestPrinted(m: Method, path: string, query: string, v: Version, hs: seq<Header>, tail: string, kept: Version)
    requires m != Invalid && v != Unknown && IsTarget(path, query) && NoCrlf(path + query)
    requires forall i :: 0 <= i < |hs| ==> Printable(hs[i])
    ensures Parse(Context(ExpectRequestLine, FRESH.(version := kept)), RequestText(m, path + query, v, hs) + tail)
         == Outcome(true, Context(GotAll, Request(m, v, path, query, Stored(map[], hs))), tail)
  {
    hide LineText, Lines, WithTarget, ReadRequestLine, WithHeaders, Stored, HeaderTexts;
    var start, target := FRESH.(version := kept), path + query;
    var r := Request(m, v, path, query, map[]);
    var s, line := RequestText(m, target, v, hs) + tail, LineText(m, target, v);
    var rest := Lines(HeaderTexts(hs)) + "" + "\r\n" + tail;
    assert s == line + "\r\n" + rest;
    AcceptsTarget(start, m, path, query, v);
    LineIsLine(m, target, v);
    FirstLine(s, line, rest);
    HeadersPrinted(r, hs);
    HeadersEnd(r, HeaderTexts(hs), "", tail);
  }

  // ---------- the parser ----------

  class HttpRequest {
    var method_: Method
    var version: Version
    var path: string
    var query: string
    var headers: map<string, string>

    ghost function Contents(): Request reads this {
      Request(method_, version, path, query, headers)
    }

    constructor ()
      ensures Contents() == FRESH
    {
      method_, version, path, query, headers := Invalid, Unknown, "", "", map[];
    }

    method SetMethod(word: string) returns (valid: bool)
      requires method_ == Invalid
      modifies this`method_
      ensures method_ == MethodOf(word) && valid == (method_ != Invalid)
    {
      if word == "GET" {
        method_ := Get;
      } else if word == "POST" {
        method_ := Post;
      } else if word == "HEAD" {
        method_ := Head;
      } else if word == "PUT" {
        method_ := Put;
      } else if word == "DELETE" {
        method_ := Delete;
      } else {
        method_ := Invalid;
      }
      valid := method_ != Invalid;
    }

    method AddHeader(line: string, colon: nat)
      requires colon == Find(line, ':') < |line|
      modifies this`headers
      ensures Contents() == WithHeader(old(Contents()), line)
    {
      var field := line[..colon];
      var start := colon + 1;
      while start < |line| && IsSpace(line[start])
        invariant colon < start <= |line| && TrimLeft(line[start..]) == TrimLeft(line[colon + 1..])
      {
        assert line[start..][1..] == line[start + 1..];
        start := start + 1;
      }
      var value := line[start..];
      while value != "" && IsSpace(value[|value| - 1])
        invariant TrimRight(value) == TrimRight(TrimLeft(line[colon + 1..]))
        decreases |value|
      {
        value := value[..|value| - 1];
      }
      headers := headers[field := value];
    }

    /** Everything is exchanged but the version. */
    method Swap(that: HttpRequest)
      modifies this, that
      ensures Contents() == old(that.Contents()).(version := old(version))
      ensures that.Contents() == old(Contents()).(version := old(that.version))
    {
      method_, that.method_ := that.method_, method_;
      path, that.path := that.path, path;
      query, that.query := that.query, query;
      headers, that.headers := that.headers, headers;
    }
  }

  class HttpContext {
    var state: State
    const request: HttpRequest

    ghost function Value(): Context reads this, request {
      Context(state, request.Contents())
    }

    constructor ()
      ensures fresh(request) && Value() == Context(ExpectRequestLine, FRESH)
    {
      state := ExpectRequestLine;
      request := new HttpRequest();
    }

    method ProcessRequestLine(line: string) returns (succeed: bool)
      requires request.method_ == Invalid
      modifies request
      ensures (succeed, request.Contents()) == ReadRequestLine(old(request.Contents()), line)
    {
      hide MethodOf, VersionOf, Find;
      succeed := false;
      var space := Find(line, ' ');
      if space != |line| {
        var valid := request.SetMethod(line[..space]);
        if valid {
          var rest := line[space + 1..];
          space := Find(rest, ' ');
          if space != |rest| {
            var target := rest[..space];
            var question := Find(target, '?');
            if question != |target| {
              request.path := target[..question];
              request.query := target[question..];
            } else {
              request.path := target;
            }
            var version := rest[space + 1..];
            succeed := |version| == 8 && version[..7] == "HTTP/1.";
            EightBytes(version);
            if succeed {
              if version[7] == '1' {
                request.version := Http11;
              } else if version[7] == '0' {
                request.version := Http10;
              } else {
                succeed := false;
              }
            }
          }
        }
      }
    }

    /** The loop over the buffer; it always comes to an end. */
    method ParseRequest(buf: Buffer) returns (ok: bool)
      requires Reading(Value())
      modifies this`state, request, buf
      ensures Outcome(ok, Value(), buf.bytes) == Parse(old(Value()), old(buf.bytes))
    {
      hide ReadRequestLine, WithHeader, Find, FindCrlf;
      ok := true;
      var hasMore := true;
      ghost var whole := Parse(Value(), buf.bytes);
      while hasMore
        invariant hasMore ==> ok && Reading(Value()) && Parse(Value(), buf.bytes) == whole
        invariant !hasMore ==> Outcome(ok, Value(), buf.bytes) == whole
        decreases hasMore, |buf.bytes|
      {
        var crlf := buf.FindCRLF(0);
        if state == ExpectRequestLine {
          if crlf != -1 {
            ok := ProcessRequestLine(buf.bytes[..crlf]);
            if ok {
              buf.Retrieve(crlf + 2);
              state := ExpectHeaders;
            } else {
              hasMore := false;
            }
          } else {
            hasMore := false;
          }
        } else {
          if crlf != -1 {
            var line := buf.bytes[..crlf];
            var colon := Find(line, ':');
            if colon != |line| {
              request.AddHeader(line, colon);
            } else {
              state := GotAll;
              hasMore := false;
            }
            buf.Retrieve(crlf + 2);
          } else {
            hasMore := false;
          }
        }
      }
    }

    /** Ready for the next request, but for the version of the last one, which stays until a request line replaces it. */
    method Reset()
      modifies this`state, request
      ensures Value() == Context(ExpectRequestLine, FRESH.(version := old(request.version))) && Reading(Value())
    {
      state := ExpectRequestLine;
      var dummy := new HttpRequest();
      request.Swap(dummy);
    }
  }

  lemma EightBytes(s: string)
    ensures |s| == 8 && s[..7] == "HTTP/1." ==> s == "HTTP/1." + [s[7]]
    ensures VersionOf(s) != Unknown ==> |s| == 8 && s[..7] == "HTTP/1."
    ensures |s| == 8 && s[..7] == "HTTP/1." ==>
              VersionOf(s) == if s[7] == '1' then Http11 else if s[7] == '0' then Http10 else Unknown
  {
    if |s| == 8 && s[..7] == "HTTP/1." {
      assert s == s[..7] + [s[7]];
      assert "HTTP/1.1" == "HTTP/1." + ['1'] && "HTTP/1.0" == "HTTP/1." + ['0'];
    }
  }
}
