/** Which request texts the head parser accepts, and what it finds in them
    (sections 4.1, 5 and 5.1 of RFC 2616). */
module HttpRequest {
  import opened Options
  import opened Chunks
  import opened Cursor
  import opened UriGrammar
  import opened UriScan
  import opened UriRoundTrip
  import opened UriHosts
  import opened UriLocality
  import opened HttpTables
  import opened HttpLines
  import opened HttpHead
  import opened HttpCase
  import opened RequestTarget

  /** A request line: the method in any case, the target, "HTTP/" in any case
      and two numbers. */
  datatype Line = Line(verb: nat, name: seq<char>, target: Target, http: seq<char>, major: seq<char>, minor: seq<char>)

  predicate LegalLine(l: Line): (b: bool)
    ensures b ==> HasHost(l.target)
  {
    && l.verb < |METHODS| && AnyCase(l.name, METHODS[l.verb]) && LegalTarget(l.target)
    && AnyCase(l.http, "HTTP/") && l.major != [] && Digits(l.major) && l.minor != [] && Digits(l.minor)
  }

  function VersionText(l: Line): seq<char> { l.http + l.major + ['.'] + l.minor }

  function LineText(l: Line): seq<char>
    requires HasHost(l.target)
  {
    l.name + [' '] + TargetText(l.target) + [' '] + VersionText(l) + ['\r', '\n']
  }

  predicate Readable(l: Line)
    requires HasHost(l.target)
  {
    l.verb != METHOD_PUT && Accepted(l.target)
  }

  // --------------------------------------------------------- pieces of a line

  /** Where target and version start, and where the line break is. */
  datatype Places = Places(uri: nat, space: nat, end: nat)

  function PlacesOf(l: Line): Places
    requires HasHost(l.target)
  {
    var p := |l.name| + 1;
    var n := p + |TargetText(l.target)|;
    Places(p, n, n + 1 + |VersionText(l)|)
  }

  /** The pieces of the line lie in the text. */
  predicate LineLies(t: seq<char>, l: Line, m: Places)
    requires HasHost(l.target)
  {
    && 0 < m.uri <= m.space < m.end && m.end + 2 <= |t|
    && t[..m.uri - 1] == l.name && t[m.uri - 1] == ' '
    && t[m.uri..m.space] == TargetText(l.target) && t[m.space] == ' '
    && t[m.space + 1..m.end] == VersionText(l) && IsCrlf(t, m.end)
  }

  lemma PiecesLie(t: seq<char>, a: seq<char>, b: seq<char>, c: seq<char>, rest: seq<char>)
    requires t == a + [' '] + b + [' '] + c + ['\r', '\n'] + rest
    ensures var p, n, e := |a| + 1, |a| + 1 + |b|, |a| + 2 + |b| + |c|;
      && e + 2 <= |t| && t[..p - 1] == a && t[p - 1] == ' ' && t[p..n] == b && t[n] == ' '
      && t[n + 1..e] == c && t[e] == '\r' && t[e + 1] == '\n'
  {
  }

  lemma LineInText(l: Line, rest: seq<char>)
    requires HasHost(l.target)
    ensures LineLies(LineText(l) + rest, l, PlacesOf(l)) && |LineText(l)| == PlacesOf(l).end + 2
  {
    hide VersionText, TargetText;
    PiecesLie(LineText(l) + rest, l.name, TargetText(l.target), VersionText(l), rest);
  }

  // ----------------------------------------------------------- method, version

  lemma MethodFound(t: seq<char>, l: Line, m: Places)
    requires LegalLine(l) && LineLies(t, l, m)
    ensures MethodAt(t, 0) == if l.verb == METHOD_PUT then None else Some(Match(l.verb, m.uri - 1))
  {
    hide TargetText, VersionText, LegalTarget, Digits, MethodAt, AnyCase;
    assert l.name == t[..m.uri - 1];
    MethodInAnyCase(t, l.name, l.verb);
  }

  /** Prefix, two numbers, and where they lie. */
  lemma VersionPieces(t: seq<char>, p: nat, e: nat, l: Line)
    requires p <= e <= |t| && t[p..e] == VersionText(l) && |l.http| == 5
    ensures var b := p + 5 + |l.major|;
      b < e && t[p..p + 5] == l.http && t[p + 5..b] == l.major && t[b] == '.' && t[b + 1..e] == l.minor
  {
    var b := p + 5 + |l.major|;
    Cut(t, p, e, l.http + l.major + ['.'], l.minor);
    Cut(t, p, b + 1, l.http + l.major, ['.']);
    Cut(t, p, b, l.http, l.major);
    assert t[b] == t[b..b + 1][0];
  }

  lemma NumberRun(t: seq<char>, a: nat, b: nat, w: seq<char>)
    requires a <= b < |t| && t[a..b] == w && Digits(w) && (t[b] == '.' || t[b] == '\r')
    ensures Scan(Number, t, a) == b && NumberAt(t, a, b) == Value(AtMost(w, MAX_DIGITS))
  {
    assert forall k :: a <= k < b ==> t[k] == t[a..b][k - a];
    ScanClean(Number, t, a, b);
    var e := if b - a > MAX_DIGITS then a + MAX_DIGITS else b;
    assert t[a..e] == w[..e - a];
    assert w[..|w|] == w;
  }

  lemma PrefixIsCapital()
    ensures IsCapital("HTTP/")
  {
  }

  lemma VersionFound(t: seq<char>, p: nat, e: nat, l: Line)
    requires LegalLine(l) && p <= e < |t| && t[p..e] == VersionText(l) && t[e] == '\r'
    ensures HttpVersion(t, p) ==
            Some(Version(Value(AtMost(l.major, MAX_DIGITS)), Value(AtMost(l.minor, MAX_DIGITS)), e))
  {
    hide LegalTarget, VersionText, Value, Digits, Scan, NumberAt, AtMost;
    VersionPieces(t, p, e, l);
    PrefixIsCapital();
    SpellsAnyCase("HTTP/", t, p);
    var b := p + 5 + |l.major|;
    NumberRun(t, p + 5, b, l.major);
    NumberRun(t, b + 1, e, l.minor);
  }

  // ----------------------------------------------------------- bytes of a line

  /** Neither space nor CR, up to the line break but for the space in front of the version. */
  predicate VersionChars(w: seq<char>) { forall k :: 0 <= k < |w| ==> w[k] != ' ' && w[k] != '\r' }

  lemma WordIsPlain(x: seq<char>, word: seq<char>)
    requires AnyCase(x, word) && forall k :: 0 <= k < |word| ==> word[k] > ' '
    ensures VersionChars(x)
  {
    forall k | 0 <= k < |x| ensures x[k] != ' ' && x[k] != '\r' { assert CapitalOrSmall(x[k], word[k]); }
  }

  lemma VersionIsPlain(l: Line)
    requires LegalLine(l)
    ensures VersionChars(VersionText(l)) && |VersionText(l)| > 5
  {
    hide LegalTarget;
    WordIsPlain(l.http, "HTTP/");
  }

  lemma MethodsArePlain(i: nat)
    requires i < |METHODS|
    ensures METHODS[i] != [] && forall k :: 0 <= k < |METHODS[i]| ==> METHODS[i][k] > ' '
  {
  }

  lemma NameIsPlain(l: Line)
    requires LegalLine(l)
    ensures VersionChars(l.name) && l.name != []
  {
    hide LegalTarget;
    MethodsArePlain(l.verb);
    WordIsPlain(l.name, METHODS[l.verb]);
  }

  /** The pieces of the line, byte by byte. */
  lemma PlainPieces(t: seq<char>, m: Places, name: seq<char>, target: seq<char>, version: seq<char>, k: nat)
    requires 0 < m.uri <= m.space < m.end && m.end + 2 <= |t| && k <= m.end + 1
    requires t[..m.uri - 1] == name && t[m.uri - 1] == ' ' && t[m.uri..m.space] == target && t[m.space] == ' '
    requires t[m.space + 1..m.end] == version && IsCrlf(t, m.end)
    requires VersionChars(name) && Quiet(target) && VersionChars(version)
    ensures (t[k] == '\r' ==> k >= m.end) && (t[k] == ' ' && k >= m.uri ==> k == m.space)
  {
    if k < m.uri - 1 {
      assert t[k] == name[k];
    } else if m.uri <= k < m.space {
      assert t[k] == target[k - m.uri];
    } else if m.space < k < m.end {
      assert t[k] == version[k - m.space - 1];
    }
  }

  lemma FirstBreak(t: seq<char>, e: nat)
    requires IsCrlf(t, e) && forall k :: 0 <= k < e ==> t[k] != '\r'
    ensures FindCrlf(t, 0) == Some(e)
  {
    FindCrlfIsFirst(t, 0, e);
    assert t[FindCrlf(t, 0).value] == '\r';
  }

  /** No other CR in front of the line break, no other space behind the target's. */
  lemma LineIsPlain(t: seq<char>, l: Line, m: Places)
    requires LegalLine(l) && LineLies(t, l, m)
    ensures m.end + 2 <= |t| && FindCrlf(t, 0) == Some(m.end)
    ensures forall k :: m.uri <= k <= m.end + 1 && k != m.space ==> t[k] != ' '
  {
    NameIsPlain(l);
    VersionIsPlain(l);
    TargetIsQuiet(l.target);
    hide TargetText, VersionText, LegalLine, VersionChars, Quiet, IsCrlf;
    forall k | 0 <= k <= m.end + 1
      ensures (t[k] == '\r' ==> k >= m.end) && (t[k] == ' ' && k >= m.uri ==> k == m.space)
    {
      PlainPieces(t, m, l.name, TargetText(l.target), VersionText(l), k);
    }
    FirstBreak(t, m.end);
  }

  // ------------------------------------------------------------ the request line

  lemma TargetFound(t: seq<char>, l: Line, m: Places)
    requires LegalLine(l) && LineLies(t, l, m)
    ensures Stops(UriReference(t[m.uri..], 0, NO_PARTS), m.space - m.uri) <==> Accepted(l.target)
  {
    hide LegalTarget, TargetText, VersionText, Accepted, UriReference, Stops;
    var s := t[m.uri..];
    assert s[..m.space - m.uri] == t[m.uri..m.space] && s[m.space - m.uri] == t[m.space];
    TargetIff(s, m.space - m.uri, l.target);
  }

  /** The parser never goes on behind the line break. */
  lemma UriStays(t: seq<char>, p: nat, k: nat)
    requires p <= k && IsCrlf(t, k)
    ensures UriReference(t[p..], 0, NO_PARTS).pos <= k + 1 - p
  {
    hide UriReference;
    PrefixIsNear(t, t, p, k);
    ReferenceNear(t[p..], t[p..], k - p, 0, NO_PARTS, NO_PARTS);
    AlikeIs(k - p, NO_PARTS, NO_PARTS, UriReference(t[p..], 0, NO_PARTS), UriReference(t[p..], 0, NO_PARTS));
  }

  /** What the line parser fills in for a line it accepts. */
  function Filled(l: Line, m: Places, parts: Parts): Head
  {
    Head(l.verb, Slice(m.uri, m.space), parts,
         Value(AtMost(l.major, MAX_DIGITS)), Value(AtMost(l.minor, MAX_DIGITS)), map[])
  }

  lemma VersionPartIs(t: seq<char>, u: Attempt)
    requires u.pos <= |t|
    ensures VersionPart(t, u).ok ==> u.ok && Is(t, u.pos, ' ')
    ensures u.ok && Is(t, u.pos, ' ') && HttpVersion(t, u.pos + 1).Some? ==>
      var v := HttpVersion(t, u.pos + 1).value;
      IsCrlf(t, v.pos) ==> VersionPart(t, u) == Attempt(true, v.pos + 2, u.head.(major := v.major, minor := v.minor))
  {
    hide HttpVersion, IsCrlf;
  }

  lemma VersionPartIff(t: seq<char>, l: Line, m: Places, u: Attempt)
    requires LegalLine(l) && LineLies(t, l, m) && m.uri <= u.pos <= m.end + 1
    ensures VersionPart(t, u).ok <==> u.ok && u.pos == m.space
    ensures VersionPart(t, u).ok ==>
      VersionPart(t, u) == Attempt(true, m.end + 2, u.head.(major := Value(AtMost(l.major, MAX_DIGITS)),
                                                            minor := Value(AtMost(l.minor, MAX_DIGITS))))
  {
    hide *;
    PlacesIn(t, l, m);
    LineIsPlain(t, l, m);
    VersionIn(t, l, m);
    VersionPartIs(t, u);
    SpaceIs(t, u.pos);
  }

  lemma SpaceIs(t: seq<char>, p: nat)
    ensures Is(t, p, ' ') <==> p < |t| && t[p] == ' '
  {
  }

  lemma VersionIn(t: seq<char>, l: Line, m: Places)
    requires LegalLine(l) && LineLies(t, l, m)
    ensures m.space + 1 <= |t| && t[m.space] == ' '
    ensures HttpVersion(t, m.space + 1) ==
            Some(Version(Value(AtMost(l.major, MAX_DIGITS)), Value(AtMost(l.minor, MAX_DIGITS)), m.end))
  {
    hide LegalLine, TargetText, VersionText, HttpVersion, Value, AtMost;
    VersionFound(t, m.space + 1, m.end, l);
  }

  /** The line is the method, and the rest behind a space. */
  lemma LineWithMethod(t: seq<char>, verb: nat, p: nat)
    requires FindCrlf(t, 0).Some? && 0 < p < |t| && MethodAt(t, 0) == Some(Match(verb, p - 1)) && Is(t, p - 1, ' ')
    ensures var r := VersionPart(t, RequestUri(t, p, FRESH.(verb := verb)));
      RequestLine(t, 0, FRESH) == if r.ok then r else Attempt(false, 0, r.head)
  {
    hide MethodAt, VersionPart, RequestUri, FindCrlf;
  }

  lemma LineWithoutMethod(t: seq<char>)
    requires FindCrlf(t, 0).Some? && MethodAt(t, 0).None?
    ensures !RequestLine(t, 0, FRESH).ok
  {
    hide MethodAt, FindCrlf;
  }

  lemma UriFound(t: seq<char>, p: nat, h: Head)
    requires p < |t|
    ensures var r := UriReference(t[p..], 0, h.parts);
      && RequestUri(t, p, h).ok == r.ok
      && (r.ok ==> RequestUri(t, p, h) == Attempt(true, p + r.pos, h.(uri := Slice(p, p + r.pos), parts := r.parts)))
      && (!r.ok ==> RequestUri(t, p, h).pos == p)
  {
    hide UriReference;
  }

  lemma PlacesIn(t: seq<char>, l: Line, m: Places)
    requires LegalLine(l) && LineLies(t, l, m)
    ensures 0 < m.uri <= m.space < m.end && m.end + 2 <= |t| && Is(t, m.uri - 1, ' ') && IsCrlf(t, m.end)
  {
    hide LegalLine, VersionText, TargetText;
  }

  lemma ReadableIs(l: Line)
    requires LegalLine(l)
    ensures Readable(l) <==> l.verb != METHOD_PUT && Accepted(l.target)
  {
    hide LegalLine, Accepted;
  }

  lemma FilledIs(l: Line, m: Places, parts: Parts)
    ensures Filled(l, m, parts) ==
            FRESH.(verb := l.verb).(uri := Slice(m.uri, m.space), parts := parts)
                 .(major := Value(AtMost(l.major, MAX_DIGITS)), minor := Value(AtMost(l.minor, MAX_DIGITS)))
    ensures FRESH.(verb := l.verb).parts == NO_PARTS
  {
    hide Value, AtMost;
  }

  /** A legal request line is accepted exactly when its method is not PUT and no
      escape of its target takes the space along; what it is found to say, and
      where the cursor is left. */
  lemma LineReadIff(t: seq<char>, l: Line, m: Places)
    requires LegalLine(l) && LineLies(t, l, m)
    ensures FindCrlf(t, 0) == Some(m.end) && m.uri <= |t|
    ensures RequestLine(t, 0, FRESH).ok <==> Readable(l)
    ensures RequestLine(t, 0, FRESH).ok ==>
      RequestLine(t, 0, FRESH) ==
      Attempt(true, m.end + 2, Filled(l, m, UriReference(t[m.uri..], 0, NO_PARTS).parts))
  {
    hide *;
    PlacesIn(t, l, m);
    LineIsPlain(t, l, m);
    MethodFound(t, l, m);
    ReadableIs(l);
    if l.verb == METHOD_PUT {
      LineWithoutMethod(t);
    } else {
      LineWithMethod(t, l.verb, m.uri);
      var r := UriReference(t[m.uri..], 0, NO_PARTS);
      FilledIs(l, m, r.parts);
      UriFound(t, m.uri, FRESH.(verb := l.verb));
      TargetFound(t, l, m);
      StopsIs(r, m.space - m.uri);
      UriStays(t, m.uri, m.end);
      VersionPartIff(t, l, m, RequestUri(t, m.uri, FRESH.(verb := l.verb)));
    }
  }

  // -------------------------------------------------------------------- the head

  lemma HeadWithLine(t: seq<char>, k: nat)
    requires FindCrlf(t, 0) == Some(k)
    ensures var r := ParseHead(t, 0, FRESH); var a := RequestLine(t, 0, FRESH);
      && (r.ok <==> a.ok && FindCrlf(t, k + 2).Some? && Lines(t, a.pos, a.head.header).ok)
      && (r.ok ==> r.head == a.head.(header := Lines(t, a.pos, a.head.header).header)
                   && r.pos == Lines(t, a.pos, a.head.header).pos)
  {
    hide RequestLine, Lines, FindCrlf;
  }

  /** An empty line, at the place `p` or behind some line break. */
  ghost predicate HasEmptyLine(t: seq<char>, p: nat) { exists j: nat :: LineStart(t, p, j) && IsCrlf(t, j) }

  lemma EmptyLineIsBreak(t: seq<char>, p: nat)
    requires HasEmptyLine(t, p)
    ensures FindCrlf(t, p).Some?
  {
    var j: nat :| LineStart(t, p, j) && IsCrlf(t, j);
    NextLine(t, p, j);
  }

  lemma FilledHas(l: Line, m: Places, parts: Parts)
    ensures var h := Filled(l, m, parts); h.verb == l.verb && h.uri == Slice(m.uri, m.space) && h.header == map[]
  {
    hide Value, AtMost;
  }

  lemma HeadReadIff(t: seq<char>, l: Line, m: Places)
    requires LegalLine(l) && LineLies(t, l, m)
    ensures var r := ParseHead(t, 0, FRESH);
      && (r.ok <==> Readable(l) && HasEmptyLine(t, m.end + 2))
      && (r.ok ==> r.head.verb == l.verb && r.head.uri == Slice(m.uri, m.space))
  {
    hide *;
    LineReadIff(t, l, m);
    HeadWithLine(t, m.end);
    FilledHas(l, m, UriReference(t[m.uri..], 0, NO_PARTS).parts);
    LinesIff(t, m.end + 2, map[]);
    if HasEmptyLine(t, m.end + 2) { EmptyLineIsBreak(t, m.end + 2); }
  }

  /** The head of a legal request line is accepted exactly when the line is read
      and an empty line follows. */
  lemma HeadIff(l: Line, rest: seq<char>)
    requires LegalLine(l)
    ensures var t, p := LineText(l) + rest, |LineText(l)|; var r := ParseHead(t, 0, FRESH);
      && (r.ok <==> Readable(l) && HasEmptyLine(t, p))
      && (r.ok ==> r.head.verb == l.verb && r.head.uri == Slice(PlacesOf(l).uri, PlacesOf(l).space))
  {
    hide *;
    LineInText(l, rest);
    HeadReadIff(LineText(l) + rest, l, PlacesOf(l));
  }

  lemma LinesIff(t: seq<char>, p: nat, header: map<nat, Slice>)
    ensures Lines(t, p, header).ok <==> HasEmptyLine(t, p)
  {
    SucceedsIff(t, p, header);
  }

  /** The header lines behind the request line: each ends in a line break. */
  predicate HeaderBlock(b: seq<char>) { b == [] || (|b| >= 2 && b[|b| - 2] == '\r' && b[|b| - 1] == '\n') }

  /** Request line, header lines, empty line, and whatever follows. */
  function RequestText(l: Line, fields: seq<char>, rest: seq<char>): seq<char>
    requires HasHost(l.target)
  {
    LineText(l) + (fields + ['\r', '\n'] + rest)
  }

  lemma BlockEnds(line: seq<char>, fields: seq<char>, rest: seq<char>)
    requires HeaderBlock(fields)
    ensures HasEmptyLine(line + (fields + ['\r', '\n'] + rest), |line|)
  {
    var t, j := line + (fields + ['\r', '\n'] + rest), |line| + |fields|;
    assert IsCrlf(t, j);
    assert LineStart(t, |line|, j) by { if fields != [] { assert IsCrlf(t, j - 2); } }
  }

  /** For every request of RFC 2616 whose line is a method, a target and a
      version: the head is accepted exactly when the method is not PUT and the
      target is accepted, whatever its header lines are and whatever follows. */
  lemma RequestIff(l: Line, fields: seq<char>, rest: seq<char>)
    requires LegalLine(l) && HeaderBlock(fields)
    ensures var r := ParseHead(RequestText(l, fields, rest), 0, FRESH);
      && (r.ok <==> Readable(l))
      && (r.ok ==> r.head.verb == l.verb && r.head.uri == Slice(PlacesOf(l).uri, PlacesOf(l).space))
  {
    hide LegalLine, LineText, PlacesOf, Readable, ParseHead, HasEmptyLine, HeaderBlock;
    HeadIff(l, fields + ['\r', '\n'] + rest);
    BlockEnds(LineText(l), fields, rest);
  }

  /** A refused line stays refused, whatever follows it. */
  lemma RefusedForGood(l: Line, t: seq<char>)
    requires LegalLine(l) && !Readable(l) && LineText(l) <= t
    ensures !ParseHead(t, 0, FRESH).ok
  {
    hide LegalLine, LineText, Readable, ParseHead, HasEmptyLine;
    var rest := t[|LineText(l)|..];
    assert t == LineText(l) + rest;
    HeadIff(l, rest);
  }

  // ---------------------------------------------------------------------- inputs

  function Get(path: seq<char>): Line { Line(METHOD_GET, "GET", Path(path, None), "HTTP/", "1", "1") }

  lemma GetIsLegal(path: seq<char>)
    requires path != [] && path[0] == '/' && (|path| > 1 ==> path[1] != '/') && Legal(PathChar, path)
    ensures LegalLine(Get(path)) && (Readable(Get(path)) <==> Clean(Uric, path))
  {
    hide Legal, Clean;
    assert path + After('?', None) == path;
  }

  lemma GetText(path: seq<char>)
    ensures HasHost(Get(path).target) && RequestText(Get(path), [], []) == "GET " + path + " HTTP/1.1\r\n\r\n"
  {
  }

  lemma RootText()
    ensures "GET " + "/" + " HTTP/1.1\r\n\r\n" == "GET / HTTP/1.1\r\n\r\n"
  {
  }

  /** "GET / HTTP/1.1" is accepted. */
  lemma RootIsServed()
    ensures ParseHead("GET / HTTP/1.1\r\n\r\n", 0, FRESH).ok
  {
    hide *;
    RootText();
    SlashIsClean();
    GetIsLegal("/");
    GetText("/");
    assert HeaderBlock([]) by { NoHeaders(); }
    RequestIff(Get("/"), [], []);
  }

  lemma NoHeaders()
    ensures HeaderBlock([])
  {
  }

  lemma SlashIsClean()
    ensures Legal(PathChar, "/") && Clean(Uric, "/")
  {
    assert "/"[1..] == "";
  }

  lemma EndingEscape()
    ensures Legal(PathChar, "/%41") && !Clean(Uric, "/%41")
  {
    var path := "/%41";
    assert path[1..] == "%41" && path[1..][3..] == "";
  }

  lemma EscapeText()
    ensures HasHost(Get("/%41").target) && LineText(Get("/%41")) == "GET /%41 HTTP/1.1\r\n"
  {
  }

  /** "GET /%41 HTTP/1.1", a legal request, is refused whatever follows: the space
      behind the escape is taken along. */
  lemma EscapeAtTheEndIsRefused(rest: seq<char>)
    ensures LegalLine(Get("/%41")) && !ParseHead("GET /%41 HTTP/1.1\r\n" + rest, 0, FRESH).ok
  {
    hide *;
    EndingEscape();
    assert "/%41"[0] == '/' && "/%41"[1] == '%';
    GetIsLegal("/%41");
    EscapeText();
    RefusedForGood(Get("/%41"), "GET /%41 HTTP/1.1\r\n" + rest);
  }

  // ------------------------------------------------------------- what is accepted

  lemma {:induction false} SpelledIsAnyCase(word: seq<char>, t: seq<char>, p: nat)
    requires Spells(word, t, p) && IsCapital(word) && p <= |t|
    ensures p + |word| <= |t| && AnyCase(t[p..p + |word|], word)
  {
    hide CapitalOrSmall, Upper;
    forall k | 0 <= k < |word| ensures p + k < |t| && CapitalOrSmall(t[p + k], word[k]) {
      CommonAt(word, t, p, k);
      UpperIs(t[p + k], word[k]);
    }
  }

  lemma NumberIs(t: seq<char>, a: nat)
    requires a <= |t|
    ensures var b := Scan(Number, t, a);
      a <= b <= |t| && Digits(t[a..b]) && NumberAt(t, a, b) == Value(AtMost(t[a..b], MAX_DIGITS))
  {
    ScannedIn(Number, t, a);
    hide Scan, Value;
    var b := Scan(Number, t, a);
    forall k | 0 <= k < b - a ensures Digit(t[a..b][k]) { assert In(Number, t[a + k]); }
    var e := if b - a > MAX_DIGITS then a + MAX_DIGITS else b;
    assert t[a..e] == t[a..b][..e - a];
    assert t[a..b][..b - a] == t[a..b];
  }

  lemma DotIs(t: seq<char>, b: nat)
    requires Is(t, b, '.')
    ensures b < |t| && t[b] == '.'
  {
  }

  /** The bytes of a version: "HTTP/" in any case, two numbers and the '.' between them. */
  predicate VersionAt(t: seq<char>, p: nat, a: nat, b: nat, v: Version) {
    && p + 5 <= a < b && b + 1 < v.pos <= |t| && a == p + 5
    && AnyCase(t[p..a], "HTTP/") && Digits(t[a..b]) && t[b] == '.' && Digits(t[b + 1..v.pos])
    && v.major == Value(AtMost(t[a..b], MAX_DIGITS)) && v.minor == Value(AtMost(t[b + 1..v.pos], MAX_DIGITS))
  }

  lemma VersionIs(t: seq<char>, p: nat) returns (b: nat)
    requires p <= |t| && HttpVersion(t, p).Some?
    ensures VersionAt(t, p, p + 5, b, HttpVersion(t, p).value)
  {
    hide Scan, NumberAt, AnyCase, Digits, Value, AtMost, Spells, IsCapital;
    PrefixIsCapital();
    SpelledIsAnyCase("HTTP/", t, p);
    var a := p + 5;
    b := Scan(Number, t, a);
    NumberIs(t, a);
    if Is(t, b, '.') {
      DotIs(t, b);
      NumberIs(t, b + 1);
    }
  }

  lemma VersionPartNeeds(t: seq<char>, u: Attempt)
    requires u.pos <= |t| && VersionPart(t, u).ok
    ensures u.ok && u.pos < |t| && t[u.pos] == ' ' && HttpVersion(t, u.pos + 1).Some?
    ensures var v := HttpVersion(t, u.pos + 1).value;
      IsCrlf(t, v.pos) && VersionPart(t, u) == Attempt(true, v.pos + 2, u.head.(major := v.major, minor := v.minor))
  {
    hide HttpVersion, IsCrlf;
  }

  lemma SpaceInLine(t: seq<char>, q: nat, k: nat)
    requires q <= k && IsCrlf(t, k) && Is(t, q, ' ')
    ensures q + 1 < |t| && t[q] == ' '
  {
  }

  lemma LineNeeds(t: seq<char>, h: Head)
    requires FindCrlf(t, 0).Some? && RequestLine(t, 0, h).ok
    ensures MethodAt(t, 0).Some?
    ensures var m := MethodAt(t, 0).value;
      && m.pos + 1 < |t| && t[m.pos] == ' '
      && RequestLine(t, 0, h) == VersionPart(t, RequestUri(t, m.pos + 1, h.(verb := m.verb)))
  {
    hide MethodAt, VersionPart, RequestUri, FindCrlf, Is, IsCrlf;
    var k := FindCrlf(t, 0).value;
    MethodStays(t, 0, k);
    if MethodAt(t, 0).Some? && Is(t, MethodAt(t, 0).value.pos, ' ') { SpaceInLine(t, MethodAt(t, 0).value.pos, k); }
  }

  /** What the struct says of the line. */
  predicate LineFound(t: seq<char>, h: Head, m: Match, r: Attempt, b: nat) {
    var u := r.head.uri;
    && r.head.verb == m.verb && r.head.header == h.header
    && u.Slice? && u.lo == m.pos + 1 <= u.hi && u.hi + 6 < r.pos <= |t|
    && t[m.pos] == ' ' && t[u.hi] == ' ' && IsCrlf(t, r.pos - 2)
    && VersionAt(t, u.hi + 1, u.hi + 6, b, Version(r.head.major, r.head.minor, r.pos - 2))
  }

  lemma FoundAll(t: seq<char>, h: Head, m: Match, u: Attempt, v: Version, b: nat)
    requires m.pos + 1 < |t| && t[m.pos] == ' ' && u.pos < |t| && t[u.pos] == ' ' && m.pos + 1 <= u.pos
    requires u.head.uri == Slice(m.pos + 1, u.pos) && u.head.verb == m.verb && u.head.header == h.header
    requires VersionAt(t, u.pos + 1, u.pos + 6, b, v) && IsCrlf(t, v.pos)
    ensures LineFound(t, h, m, Attempt(true, v.pos + 2, u.head.(major := v.major, minor := v.minor)), b)
  {
    hide AnyCase, Digits, Value, AtMost;
  }

  /** Whatever line is accepted: a method, one space, the URI, one space, a
      version and a line break, and the struct says so. */
  lemma AcceptedLineIs(t: seq<char>, h: Head) returns (b: nat)
    requires FindCrlf(t, 0).Some? && RequestLine(t, 0, h).ok
    ensures MethodAt(t, 0).Some? && LineFound(t, h, MethodAt(t, 0).value, RequestLine(t, 0, h), b)
  {
    hide *;
    LineNeeds(t, h);
    var m := MethodAt(t, 0).value;
    var u := RequestUri(t, m.pos + 1, h.(verb := m.verb));
    VersionPartNeeds(t, u);
    b := VersionIs(t, u.pos + 1);
    UriLeft(t, m.pos + 1, h.(verb := m.verb));
    FoundAll(t, h, m, u, HttpVersion(t, u.pos + 1).value, b);
  }
}
