/** The targets of a request line (section 5.1.2 of RFC 2616), and which of them
    the URI parser reads up to the space behind them. */
module RequestTarget {
  import opened Options
  import opened Cursor
  import opened UriGrammar
  import opened UriScan
  import opened UriRoundTrip

  /** "*", an absolute path, an absolute URI, or the authority of CONNECT. */
  datatype Target =
    | Asterisk
    | Path(path: seq<char>, query: Option<seq<char>>)
    | Url(url: Generic)
    | HostPort(host: Server, port: seq<char>)

  /** An absolute path that starts with "//" is a network path instead. */
  predicate LegalTarget(x: Target): (b: bool)
    ensures b ==> HasHost(x)
  {
    match x
    case Asterisk => true
    case Path(path, query) =>
      path != [] && path[0] == '/' && (|path| > 1 ==> path[1] != '/') && Legal(PathChar, path)
      && (query.Some? ==> Legal(Uric, query.value))
    case Url(g) => LegalUri(g) && g.userinfo.None? && g.fragment.None?
    case HostPort(host, port) => LegalHost(host) && Digits(port)
  }

  predicate HasHost(x: Target) {
    (x.Url? ==> x.url.host.labels != []) && (x.HostPort? ==> x.host.labels != [])
  }

  function TargetText(x: Target): seq<char>
    requires HasHost(x)
  {
    match x
    case Asterisk => "*"
    case Path(path, query) => path + After('?', query)
    case Url(g) => Text(g)
    case HostPort(host, port) => HostText(host) + [':'] + port
  }

  predicate StartsAlpha(w: seq<char>) { w != [] && Alpha(w[0]) }

  /** No escape takes the space behind the target along, and the authority of
      CONNECT looks like a scheme and an opaque part. */
  predicate Accepted(x: Target)
    requires HasHost(x)
  {
    match x
    case Asterisk => true
    case Path(path, query) => Clean(Uric, path + After('?', query))
    case Url(g) => Clean(Uric, g.path + After('?', g.query))
    case HostPort(host, port) => StartsAlpha(HostText(host)) && port != []
  }

  // ------------------------------------------------- path and query are flat

  lemma UricIsPath(c: char)
    ensures In(Uric, c) <==> In(PathChar, c) || c == '?'
    ensures !In(PathChar, '?')
  {
  }

  lemma SameStart(t: seq<char>, p: nat)
    requires p <= |t|
    ensures Starts(Uric, t, p) <==> Starts(PathChar, t, p) || Is(t, p, '?')
    ensures Starts(PathChar, t, p) ==> Step(Uric, t, p) == Step(PathChar, t, p)
    ensures Is(t, p, '?') ==> !Starts(PathChar, t, p) && Step(Uric, t, p) == p + 1
    ensures Missed(Uric, t, p) == Missed(PathChar, t, p)
    ensures Is(t, p, '?') ==> p < |t| && Missed(PathChar, t, p) == p
    ensures !Is(t, p, '?') ==> !Is(t, Missed(PathChar, t, p), '?')
  {
    if p < |t| { UricIsPath(t[p]); }
    UricIsPath('?');
    NoPercent(Uric);
    hide In;
  }

  /** The query loop goes on where the path loops stop at a '?'. */
  lemma {:induction false} PathThenQuery(t: seq<char>, p: nat)
    requires p <= |t|
    ensures var e := Scan(PathChar, t, p); Scan(Uric, t, p) == if Is(t, e, '?') then Scan(Uric, t, e + 1) else e
    decreases |t| - p
  {
    SameStart(t, p);
    hide Starts, Step, Missed;
    if Starts(PathChar, t, p) { PathThenQuery(t, Step(PathChar, t, p)); }
  }

  /** Where path and query end that start at `u`, given where the path ends. */
  function QueryEnd(t: seq<char>, e: nat): nat { if Is(t, e, '?') then Scan(Uric, t, e + 1) else e }

  lemma SlashStarts(t: seq<char>, u: nat)
    ensures Is(t, u, '/') ==> u < |t| && Scan(PathChar, t, u) == Scan(PathChar, t, u + 1)
    ensures Is(t, u, '?') || Is(t, u, ' ') ==> u < |t| && Scan(PathChar, t, u) == u && !Is(t, u, '/')
  {
    if Is(t, u, '/') { assert Starts(PathChar, t, u) && Step(PathChar, t, u) == u + 1; }
  }

  lemma PathQueryEnd(t: seq<char>, u: nat, parts: Parts)
    requires Is(t, u, '/') || Is(t, u, '?') || Is(t, u, ' ')
    ensures QueryEnd(t, AbsPath(t, u, parts).pos) == Scan(Uric, t, u)
  {
    hide Scan, PathEnd;
    SlashStarts(t, u);
    PathThenQuery(t, u);
    if Is(t, u, '/') { PathIsFlat(t, u + 1); }
  }

  lemma {:induction false} LegalJoin(path: seq<char>, tail: seq<char>)
    requires Legal(PathChar, path) && Legal(Uric, tail)
    ensures Legal(Uric, path + tail)
    decreases |path|
  {
    var w := path + tail;
    if path == [] {
      assert w == tail;
    } else if In(PathChar, path[0]) {
      UricIsPath(path[0]);
      assert w[1..] == path[1..] + tail;
      LegalJoin(path[1..], tail);
    } else {
      assert IsEscape(w, 0) by { assert IsEscape(path, 0) && w[0] == path[0] && w[1] == path[1] && w[2] == path[2]; }
      assert w[3..] == path[3..] + tail;
      NoPercent(Uric);
      LegalJoin(path[3..], tail);
    }
  }

  lemma LegalPathQuery(path: seq<char>, query: Option<seq<char>>)
    requires Legal(PathChar, path) && (query.Some? ==> Legal(Uric, query.value))
    ensures Legal(Uric, path + After('?', query))
  {
    var tail := After('?', query);
    assert Legal(Uric, tail) by {
      if query.Some? {
        UricIsPath('?');
        assert tail[1..] == query.value;
      }
    }
    LegalJoin(path, tail);
  }

  /** Path and query are read up to the space exactly when no escape swallows it. */
  lemma PathQueryIff(t: seq<char>, u: nat, n: nat, path: seq<char>, query: Option<seq<char>>, parts: Parts)
    requires Legal(PathChar, path) && (query.Some? ==> Legal(Uric, query.value)) && (path != [] ==> path[0] == '/')
    requires u <= n < |t| && t[u..n] == path + After('?', query) && t[n] == ' '
    ensures QueryEnd(t, AbsPath(t, u, parts).pos) == n <==> Clean(Uric, path + After('?', query))
  {
    var w := path + After('?', query);
    assert u < n ==> t[u] == t[u..n][0] == w[0];
    LegalPathQuery(path, query);
    assert Closed(Uric, t, n);
    hide Legal, Clean, In, AbsPath, Closed, Scan, QueryEnd;
    PathQueryEnd(t, u, parts);
    ScanLegal(Uric, t, u, n);
  }

  // ------------------------------------------------------- bytes of a target

  /** Neither space nor line break nor fragment mark. */
  predicate Calm(c: char) { c != ' ' && c != '\r' && c != '#' }

  predicate Quiet(w: seq<char>) { forall k :: 0 <= k < |w| ==> Calm(w[k]) }

  lemma ClassIsCalm(cls: Class, c: char)
    ensures In(cls, c) || Hex(c) || c == '%' ==> Calm(c)
  {
  }

  lemma AllInIsQuiet(cls: Class, w: seq<char>)
    requires forall k :: 0 <= k < |w| ==> In(cls, w[k])
    ensures Quiet(w)
  {
    hide In, Calm;
    forall k | 0 <= k < |w| ensures Calm(w[k]) { ClassIsCalm(cls, w[k]); }
  }

  lemma {:induction false} LegalIsQuiet(cls: Class, w: seq<char>)
    requires Legal(cls, w)
    ensures Quiet(w)
    decreases |w|
  {
    hide In, Calm, Hex;
    if w != [] {
      ClassIsCalm(cls, w[0]);
      if In(cls, w[0]) {
        LegalIsQuiet(cls, w[1..]);
        assert w == [w[0]] + w[1..];
      } else {
        ClassIsCalm(cls, w[1]);
        ClassIsCalm(cls, w[2]);
        LegalIsQuiet(cls, w[3..]);
        assert w == [w[0], w[1], w[2]] + w[3..];
      }
    }
  }

  lemma QuietAt(t: seq<char>, n: nat, q: nat)
    requires q < n <= |t| && Quiet(t[..n])
    ensures Calm(t[q])
  {
    assert t[q] == t[..n][q];
  }

  lemma {:induction false} LabelsAreHostChars(labels: seq<seq<char>>)
    requires LegalLabels(labels)
    ensures Dotted(labels) != [] && Alphanum(Dotted(labels)[0])
    ensures forall k :: 0 <= k < |Dotted(labels)| ==> In(Label, Dotted(labels)[k]) || Dotted(labels)[k] == '.'
    decreases |labels|
  {
    LabelsUnfold(labels);
    hide In, Last, Alphanum;
    if |labels| > 1 { LabelsAreHostChars(labels[1..]); }
  }

  /** A host begins with a letter or digit and holds only scheme characters,
      which are also characters of a relative path. */
  lemma HostChars(h: Server)
    requires LegalHost(h)
    ensures h.labels != [] && HostText(h) != [] && Alphanum(HostText(h)[0])
    ensures var w := HostText(h); forall k :: 0 <= k < |w| ==> In(SchemeChar, w[k]) && In(RelSegment, w[k])
  {
    HostLabels(h);
    LabelsAreHostChars(h.labels);
    assert forall c :: In(Label, c) || c == '.' ==> In(SchemeChar, c) && In(RelSegment, c);
    hide In, LegalLabels, Dotted, Last, Alphanum;
  }

  lemma UrlIsQuiet(g: Generic)
    requires LegalUri(g) && g.userinfo.None? && g.fragment.None?
    ensures g.host.labels != [] && Quiet(Text(g))
  {
    hide In, Legal, HostText, Text, LegalHost, Digits, Calm;
    LegalPathQuery(g.path, g.query);
    LegalIsQuiet(Uric, g.path + After('?', g.query));
    HostChars(g.host);
    AllInIsQuiet(SchemeChar, g.scheme);
    AllInIsQuiet(SchemeChar, HostText(g.host));
    PortIsQuiet(g.port);
    UrlText(g);
    QuietFive(g.scheme, HostText(g.host), After(':', g.port), g.path + After('?', g.query));
  }

  lemma PortIsQuiet(port: Option<seq<char>>)
    requires port.Some? ==> Digits(port.value)
    ensures Quiet(After(':', port))
  {
    if port.Some? { DigitsAreQuiet(port.value); }
    hide Digits;
  }

  lemma QuietFive(a: seq<char>, b: seq<char>, c: seq<char>, d: seq<char>)
    requires Quiet(a) && Quiet(b) && Quiet(c) && Quiet(d)
    ensures Quiet(a + [':', '/', '/'] + b + c + d)
  {
    assert Quiet([':', '/', '/']);
    hide Calm;
  }

  /** A URI without user information and fragment, piece by piece. */
  lemma UrlText(g: Generic)
    requires g.host.labels != [] && g.userinfo.None? && g.fragment.None?
    ensures Text(g) ==
            g.scheme + [':', '/', '/'] + HostText(g.host) + After(':', g.port) + (g.path + After('?', g.query))
  {
    hide HostText;
  }

  lemma TargetIsQuiet(x: Target)
    requires LegalTarget(x)
    ensures TargetText(x) != [] && Quiet(TargetText(x))
  {
    hide In, Legal, LegalUri, LegalHost, Text, HostText, Digits;
    match x
    case Asterisk =>
    case Path(path, query) =>
      LegalPathQuery(path, query);
      LegalIsQuiet(Uric, path + After('?', query));
    case Url(g) =>
      UrlIsQuiet(g);
      UrlText(g);
    case HostPort(host, port) =>
      HostChars(host);
      AllInIsQuiet(SchemeChar, HostText(host));
      DigitsAreQuiet(port);
  }

  lemma DigitsAreQuiet(w: seq<char>)
    requires Digits(w)
    ensures Quiet(w)
  {
    assert forall k :: 0 <= k < |w| ==> In(Number, w[k]);
    AllInIsQuiet(Number, w);
  }

  // ------------------------------------------------------ what the parser reads

  /** The target lies in front of a space. */
  predicate TargetLies(t: seq<char>, n: nat, x: Target)
    requires HasHost(x)
  {
    n < |t| && t[..n] == TargetText(x) && t[n] == ' '
  }

  /** The parser without its fragment part. */
  function Base(t: seq<char>): Parse {
    var a := AbsoluteUri(t, 0, NO_PARTS);
    if a.ok then a else RelativeUri(t, 0, a.parts)
  }

  predicate Stops(r: Parse, n: nat) { r.ok && r.pos == n }

  /** There is no fragment in front of the space. */
  lemma BaseIff(t: seq<char>, n: nat)
    requires 0 < n < |t| && Quiet(t[..n]) && t[n] == ' '
    ensures Stops(UriReference(t, 0, NO_PARTS), n) <==> Stops(Base(t), n)
    ensures Stops(Base(t), n) ==> UriReference(t, 0, NO_PARTS) == Base(t)
  {
    hide AbsoluteUri, RelativeUri;
    var r := Base(t);
    if Is(t, r.pos, '#') {
      if r.pos < n { QuietAt(t, n, r.pos); }
    }
  }

  /** A text that starts with no letter has no scheme. */
  lemma NoScheme(t: seq<char>)
    requires t != [] && !Alpha(t[0])
    ensures Base(t) == RelativeUri(t, 0, NO_PARTS)
  {
    hide RelativeUri;
  }

  lemma PathIff(t: seq<char>, n: nat, x: Target)
    requires x.Path? && LegalTarget(x) && TargetLies(t, n, x)
    ensures Stops(Base(t), n) <==> Accepted(x)
  {
    var w := TargetText(x);
    assert t[0] == t[..n][0] == '/';
    assert t[1] != '/' by { if n > 1 { assert t[1] == t[..n][1] == w[1]; } }
    assert t[0..n] == t[..n];
    hide Legal, Clean, AbsPath, Query, Scan;
    NoScheme(t);
    PathQueryIff(t, 0, n, x.path, x.query, NO_PARTS);
    assert AbsPath(t, 0, NO_PARTS).ok by { SlashIsPath(t, 0, NO_PARTS); }
    RelativePath(t);
    QueryEndIs(t, 0, AbsPath(t, 0, NO_PARTS));
  }

  lemma SlashIsPath(t: seq<char>, p: nat, parts: Parts)
    ensures AbsPath(t, p, parts).ok <==> Is(t, p, '/')
  {
  }

  lemma RelativePath(t: seq<char>)
    requires AbsPath(t, 0, NO_PARTS).ok && !Is(t, 1, '/')
    ensures RelativeUri(t, 0, NO_PARTS) == WithQuery(t, 0, AbsPath(t, 0, NO_PARTS))
  {
    hide AbsPath;
  }

  lemma QueryEndIs(t: seq<char>, p: nat, r: Parse)
    requires r.ok && p <= r.pos <= |t|
    ensures WithQuery(t, p, r).ok && WithQuery(t, p, r).pos == QueryEnd(t, r.pos)
  {
    hide Scan;
  }

  /** A text that starts as a relative path does, up to what ends it. */
  lemma RelativeStart(t: seq<char>, n: nat, e: nat, parts: Parts)
    requires 0 < e <= n < |t| && (forall k :: 0 <= k < e ==> In(RelSegment, t[k]))
    requires Is(t, e, ' ') || Is(t, e, ':')
    ensures RelativeUri(t, 0, parts).ok && RelativeUri(t, 0, parts).pos == e
  {
    assert In(RelSegment, t[0]) && !In(RelSegment, '/') && Closed(RelSegment, t, e);
    ScanClean(RelSegment, t, 0, e);
    hide In, Scan, PathEnd, Authority;
    assert Starts(RelSegment, t, 0);
    assert !AbsPath(t, e, parts).ok && !AbsPath(t, 0, parts).ok && !NetPath(t, 0, parts).ok;
    assert RelPath(t, 0, parts).ok && RelPath(t, 0, parts).pos == e;
  }

  lemma AsteriskIff(t: seq<char>, n: nat)
    requires TargetLies(t, n, Asterisk)
    ensures Stops(Base(t), n)
  {
    assert n == 1 && t[0] == t[..n][0] == '*';
    NoScheme(t);
    RelativeStart(t, 1, 1, NO_PARTS);
  }

  lemma NoHierPart(t: seq<char>, p: nat, parts: Parts)
    requires p <= |t| && !Is(t, p, '/') && !Is(t, p, '?')
    ensures HierPart(t, p, parts) == Parse(false, p, parts)
  {
    hide Authority, PathEnd, Query;
  }

  lemma OpaqueDigits(t: seq<char>, p: nat, n: nat, parts: Parts)
    requires p <= n < |t| && t[n] == ' ' && forall k :: p <= k < n ==> Digit(t[k])
    ensures if p < n then Stops(OpaquePart(t, p, parts), n) else OpaquePart(t, p, parts) == Parse(false, p, parts)
  {
    assert forall c :: Digit(c) ==> In(Uric, c) && In(NoSlash, c);
    assert Closed(Uric, t, n);
    if p < n {
      assert Starts(NoSlash, t, p) && Step(NoSlash, t, p) == p + 1;
      hide In, Digit;
      ScanClean(Uric, t, p + 1, n);
    } else {
      assert !Starts(NoSlash, t, p) && Missed(NoSlash, t, p) == p;
    }
  }

  /** Scheme, ':' and opaque part, when the port has a digit. */
  lemma SchemeThenPort(t: seq<char>, c: nat, n: nat)
    requires 0 < c < n < |t| && t[c] == ':' && t[n] == ' ' && Alpha(t[0])
    requires (forall k :: 0 <= k < c ==> In(SchemeChar, t[k])) && (forall k :: c < k < n ==> Digit(t[k]))
    ensures AbsoluteUri(t, 0, NO_PARTS).ok <==> c + 1 < n
    ensures c + 1 < n ==> AbsoluteUri(t, 0, NO_PARTS).pos == n
  {
    assert Closed(SchemeChar, t, c);
    ScanClean(SchemeChar, t, 0, c);
    assert !Is(t, c + 1, '/') && !Is(t, c + 1, '?');
    hide In, Scan, HierPart, OpaquePart, Alpha, Digit;
    var parts := Scheme(t, 0, NO_PARTS).parts;
    NoHierPart(t, c + 1, parts);
    OpaqueDigits(t, c + 1, n, parts);
  }

  lemma HostPortPieces(t: seq<char>, n: nat, x: Target)
    requires x.HostPort? && LegalTarget(x) && TargetLies(t, n, x)
    ensures var c := |HostText(x.host)|;
      && 0 < c < n && t[c] == ':' && t[0] == HostText(x.host)[0] && (c + 1 < n <==> x.port != [])
      && (forall k :: 0 <= k < c ==> In(SchemeChar, t[k]) && In(RelSegment, t[k]))
      && (forall k :: c < k < n ==> Digit(t[k]))
  {
    HostChars(x.host);
    hide In, HostText, LegalHost, Digit;
    var w := TargetText(x);
    assert forall k :: 0 <= k < n ==> t[k] == t[..n][k];
  }

  lemma HostPortIff(t: seq<char>, n: nat, x: Target)
    requires x.HostPort? && LegalTarget(x) && TargetLies(t, n, x)
    ensures Stops(Base(t), n) <==> Accepted(x)
  {
    HostPortPieces(t, n, x);
    hide In, HostText, LegalHost, Digit, Alpha, AbsoluteUri, RelativeUri, Digits;
    var c := |HostText(x.host)|;
    if StartsAlpha(HostText(x.host)) { SchemeThenPort(t, c, n); } else { NoScheme(t); }
    RelativeStart(t, n, c, AbsoluteUri(t, 0, NO_PARTS).parts);
    RelativeStart(t, n, c, NO_PARTS);
  }

  // ------------------------------------------------------------ absolute URIs

  lemma Inside(t: seq<char>, n: nat, i: nat, j: nat)
    requires i <= j <= n <= |t|
    ensures t[i..j] == t[..n][i..j]
  {
  }

  /** Where the pieces of an absolute URI lie in the text. */
  lemma UrlLies(t: seq<char>, n: nat, g: Generic)
    requires LegalUri(g) && g.userinfo.None? && g.fragment.None? && g.host.labels != []
    requires n < |t| && t[..n] == Text(g) && t[n] == ' '
    ensures var m := MarksOf(g);
      && m.scheme + 3 <= m.host <= m.authority <= n
      && t[..m.scheme] == g.scheme && t[m.scheme] == ':' && t[m.scheme + 1] == t[m.scheme + 2] == '/'
      && ServerLies(t, m.scheme + 3, m.host, m.authority, g)
      && t[m.authority..n] == g.path + After('?', g.query)
  {
    var m := MarksOf(g);
    TextIsMarked(g);
    UrlMarks(g, Text(g), m);
    hide HostText, LegalUri, Text, Marked, MarksOf, After;
    Inside(t, n, 0, m.scheme);
    Inside(t, n, m.scheme + 3, m.host);
    Inside(t, n, m.host, m.authority);
    Inside(t, n, m.authority, n);
    assert t[m.scheme] == t[..n][m.scheme] && t[m.scheme + 1] == t[..n][m.scheme + 1]
           && t[m.scheme + 2] == t[..n][m.scheme + 2];
    UrlTail(g, t[m.authority..n]);
    assert m.authority < n ==> t[m.authority] == t[m.authority..n][0];
  }

  lemma UrlTail(g: Generic, w: seq<char>)
    requires LegalUri(g) && w == g.path + After('?', g.query)
    ensures w != [] ==> w[0] == '/' || w[0] == '?'
  {
    hide Legal, LegalHost;
  }

  lemma UrlMarks(g: Generic, t: seq<char>, m: Marks)
    requires g.host.labels != [] && g.userinfo.None? && g.fragment.None? && Marked(g, t, m)
    ensures m.scheme + 3 == m.user <= m.host <= m.authority <= |t|
    ensures t[..m.scheme] == g.scheme && t[m.scheme] == ':' && t[m.scheme + 1] == t[m.scheme + 2] == '/'
    ensures t[m.user..m.host] == HostText(g.host) && t[m.host..m.authority] == After(':', g.port)
    ensures t[m.authority..|t|] == g.path + After('?', g.query)
  {
    hide HostText;
    assert |t[m.scheme + 3..m.user]| == m.user - (m.scheme + 3);
    assert |t[m.query..]| == |t| - m.query;
    assert t[m.authority..|t|] == t[m.authority..m.path] + t[m.path..m.query];
  }

  lemma UrlAuthority(t: seq<char>, n: nat, g: Generic)
    requires LegalUri(g) && g.userinfo.None? && g.fragment.None? && g.host.labels != []
    requires n < |t| && t[..n] == Text(g) && t[n] == ' '
    ensures var m := MarksOf(g); var parts := NO_PARTS.(scheme := Slice(0, m.scheme));
      && Scheme(t, 0, NO_PARTS) == Parse(true, m.scheme, parts)
      && Authority(t, m.scheme + 3, parts).pos == m.authority
  {
    var m := MarksOf(g);
    var parts := NO_PARTS.(scheme := Slice(0, m.scheme));
    UrlLies(t, n, g);
    SchemeAt(t, g.scheme);
    hide LegalUri, Authority, ServerLies, ServerRead, Text, Last, HostText;
    ServerAt(t, m.scheme + 3, m.host, m.authority, g, parts);
  }

  /** Scheme and authority are followed by path and query. */
  lemma UrlBase(t: seq<char>, c: nat, u: nat, parts: Parts)
    requires Scheme(t, 0, NO_PARTS) == Parse(true, c, parts) && c + 3 <= u <= |t|
    requires Is(t, c, ':') && Is(t, c + 1, '/') && Is(t, c + 2, '/') && Authority(t, c + 3, parts).pos == u
    ensures Base(t).ok && Base(t).pos == QueryEnd(t, AbsPath(t, u, Authority(t, c + 3, parts).parts).pos)
  {
    hide Authority, AbsPath, Scheme, WithQuery;
    var r := NetPath(t, c + 1, parts);
    assert r.ok && r.pos == AbsPath(t, u, Authority(t, c + 3, parts).parts).pos;
    QueryEndIs(t, c + 1, r);
    assert HierPart(t, c + 1, parts) == WithQuery(t, c + 1, r);
  }

  lemma UrlIff(t: seq<char>, n: nat, x: Target)
    requires x.Url? && LegalTarget(x) && TargetLies(t, n, x)
    ensures Stops(Base(t), n) <==> Accepted(x)
  {
    var g, m := x.url, MarksOf(x.url);
    var parts := NO_PARTS.(scheme := Slice(0, m.scheme));
    UrlLies(t, n, g);
    UrlAuthority(t, n, g);
    UrlBase(t, m.scheme, m.authority, parts);
    UrlPath(g);
    hide *;
    PathQueryIff(t, m.authority, n, g.path, g.query, Authority(t, m.scheme + 3, parts).parts);
    StopsIs(Base(t), n);
    AcceptedUrl(x);
    TargetSpace(t, n, x);
  }

  lemma UrlPath(g: Generic)
    requires LegalUri(g)
    ensures Legal(PathChar, g.path) && (g.path != [] ==> g.path[0] == '/')
    ensures g.query.Some? ==> Legal(Uric, g.query.value)
  {
  }

  lemma StopsIs(r: Parse, n: nat)
    ensures Stops(r, n) <==> r.ok && r.pos == n
  {
  }

  lemma AcceptedUrl(x: Target)
    requires x.Url? && HasHost(x)
    ensures Accepted(x) <==> Clean(Uric, x.url.path + After('?', x.url.query))
  {
  }

  lemma TargetSpace(t: seq<char>, n: nat, x: Target)
    requires HasHost(x) && TargetLies(t, n, x)
    ensures n < |t| && t[..n] == TargetText(x) && t[n] == ' '
  {
  }

  // ------------------------------------------------------------------ theorem

  /** The URI parser, run on a text that starts with a legal target and a space,
      answers that the target ends at the space exactly when the target is
      accepted. */
  lemma TargetIff(t: seq<char>, n: nat, x: Target)
    requires LegalTarget(x) && TargetLies(t, n, x)
    ensures Stops(UriReference(t, 0, NO_PARTS), n) <==> Accepted(x)
  {
    TargetIsQuiet(x);
    TargetSpace(t, n, x);
    hide *;
    BaseIff(t, n);
    match x
    case Asterisk =>
      AsteriskIff(t, n);
      AcceptedAsterisk();
    case Path(_, _) => PathIff(t, n, x);
    case Url(_) => UrlIff(t, n, x);
    case HostPort(_, _) => HostPortIff(t, n, x);
  }

  lemma AcceptedAsterisk()
    ensures Accepted(Asterisk)
  {
  }

  lemma PathParts(t: seq<char>, n: nat, x: Target)
    requires x.Path? && LegalTarget(x) && TargetLies(t, n, x)
    ensures var a := AbsPath(t, 0, NO_PARTS);
      && Base(t) == WithQuery(t, 0, a) && a.ok && a.parts == NO_PARTS.(absPath := Slice(0, a.pos))
      && (a.pos == |x.path| <==> Clean(PathChar, x.path))
  {
    var w := TargetText(x);
    assert t[0] == t[..n][0] == '/';
    assert t[1] != '/' by { if n > 1 { assert t[1] == t[..n][1] == w[1]; } }
    assert t[0..|x.path|] == t[..n][..|x.path|] == x.path;
    assert |x.path| < n ==> t[|x.path|] == t[..n][|x.path|] == '?';
    hide Legal, Clean, AbsPath, Query, Scan;
    NoScheme(t);
    PathAt(t, 0, |x.path|, x.path, NO_PARTS);
    RelativePath(t);
  }

  /** An accepted path is found as the path exactly when no escape of its own
      takes the '?' along; then the query is found as well. */
  lemma PathIsFound(t: seq<char>, n: nat, x: Target)
    requires x.Path? && LegalTarget(x) && TargetLies(t, n, x) && Accepted(x)
    ensures var p := UriReference(t, 0, NO_PARTS).parts;
      && (p.absPath == Slice(0, |x.path|) <==> Clean(PathChar, x.path))
      && (Clean(PathChar, x.path) ==> p.query == if x.query.Some? then Slice(|x.path| + 1, n) else Unset)
  {
    TargetIff(t, n, x);
    TargetIsQuiet(x);
    PathIff(t, n, x);
    BaseIff(t, n);
    PathParts(t, n, x);
    assert |x.path| < n ==> t[|x.path|] == t[..n][|x.path|];
    hide Legal, Clean, AbsPath, Scan, UriReference, Base, Quiet;
    QueryPart(t, AbsPath(t, 0, NO_PARTS));
  }

  lemma QueryPart(t: seq<char>, r: Parse)
    requires r.ok && r.pos <= |t|
    ensures var w := WithQuery(t, 0, r);
      w.parts == if Is(t, r.pos, '?') then r.parts.(query := Slice(r.pos + 1, w.pos)) else r.parts
  {
    hide Scan;
  }

  /** No address with its port is accepted as the authority of CONNECT. */
  lemma AddressIsRefused(h: Server, port: seq<char>)
    requires h.Address? && LegalTarget(HostPort(h, port))
    ensures !Accepted(HostPort(h, port))
  {
    var first := h.labels[0];
    assert first != [] && Digits(first) && Digit(first[0]);
    assert Dotted(h.labels)[0] == first[0];
    hide Digits, Dotted;
    assert HostText(h)[0] == first[0];
  }
}
