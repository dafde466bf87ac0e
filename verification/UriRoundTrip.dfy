/** Printing and parsing a URI: parsing what the recomposition writes, and
    recomposing what the parser found. */
module UriRoundTrip {
  import opened Options
  import opened Cursor
  import opened UriGrammar
  import opened UriScan
  import Resolve

  // ------------------------------------------------- recompose, then parse

  /** A hostname, or the four numbers of an IPv4 address. */
  datatype Server = Name(labels: seq<seq<char>>, finalDot: bool) | Address(labels: seq<seq<char>>)

  /** The components of a generic URI with a server. */
  datatype Generic = Generic(scheme: seq<char>, userinfo: Option<seq<char>>, host: Server, port: Option<seq<char>>,
                             path: seq<char>, query: Option<seq<char>>, fragment: Option<seq<char>>)

  predicate LegalLabel(w: seq<char>) {
    w != [] && Alphanum(w[0]) && w[|w| - 1] != '-' && forall k :: 0 <= k < |w| ==> In(Label, w[k])
  }

  predicate LegalLabels(labels: seq<seq<char>>) {
    labels != [] && LegalLabel(labels[0]) && (|labels| > 1 ==> LegalLabels(labels[1..]))
  }

  predicate Digits(w: seq<char>) { forall k :: 0 <= k < |w| ==> Digit(w[k]) }

  predicate AllNumbers(numbers: seq<seq<char>>) {
    forall k :: 0 <= k < |numbers| ==> numbers[k] != [] && Digits(numbers[k])
  }

  function Last(labels: seq<seq<char>>): seq<char>
    requires labels != []
  {
    labels[|labels| - 1]
  }

  predicate LegalHost(h: Server) {
    match h
    case Name(labels, _) => LegalLabels(labels) && Last(labels) != [] && Alpha(Last(labels)[0])
    case Address(numbers) => |numbers| == 4 && AllNumbers(numbers)
  }

  /** The components are what sections 3.1 to 3.4 and 4.1 of RFC 2396 allow. */
  predicate LegalUri(g: Generic) {
    && g.scheme != [] && Alpha(g.scheme[0]) && (forall k :: 0 <= k < |g.scheme| ==> In(SchemeChar, g.scheme[k]))
    && (g.userinfo.Some? ==> Legal(Userinfo, g.userinfo.value))
    && LegalHost(g.host)
    && (g.port.Some? ==> Digits(g.port.value))
    && (g.path != [] ==> g.path[0] == '/') && Legal(PathChar, g.path)
    && (g.query.Some? ==> Legal(Uric, g.query.value))
    && (g.fragment.Some? ==> Legal(Uric, g.fragment.value))
  }

  function Dotted(labels: seq<seq<char>>): seq<char>
    requires labels != []
  {
    if |labels| == 1 then labels[0] else labels[0] + "." + Dotted(labels[1..])
  }

  function HostText(h: Server): seq<char>
    requires h.labels != []
  {
    Dotted(h.labels) + if h.Name? && h.finalDot then "." else ""
  }

  function Before(o: Option<seq<char>>, mark: char): seq<char> { if o.Some? then o.value + [mark] else [] }

  function After(mark: char, o: Option<seq<char>>): seq<char> { if o.Some? then [mark] + o.value else [] }

  function SetPart(bytes: seq<char>): Resolve.Part { Resolve.Part(bytes, true, false) }

  function OptPart(o: Option<seq<char>>): Resolve.Part { if o.Some? then SetPart(o.value) else Resolve.UNSET }

  /** The text the recomposition writes for the components. */
  function Text(g: Generic): seq<char>
    requires g.host.labels != []
  {
    Resolve.Recomposed(SetPart(g.scheme), SetPart(Before(g.userinfo, '@') + (HostText(g.host) + After(':', g.port))),
                       g.path, OptPart(g.query), OptPart(g.fragment))
  }

  /** Where the scheme ends, the host starts, and host, authority, path and query end. */
  datatype Marks = Marks(scheme: nat, user: nat, host: nat, authority: nat, path: nat, query: nat)

  function MarksOf(g: Generic): Marks
    requires g.host.labels != []
  {
    var s := |g.scheme|;
    var i := s + 3 + |Before(g.userinfo, '@')|;
    var h := i + |HostText(g.host)|;
    var u := h + |After(':', g.port)|;
    var e := u + |g.path|;
    Marks(s, i, h, u, e, e + |After('?', g.query)|)
  }

  /** What the parser holds when it has read up to and including the authority. */
  function Opened(g: Generic, m: Marks): Parts {
    NO_PARTS.(scheme := Slice(0, m.scheme),
              authority := Slice(m.scheme + 3, m.authority),
              userinfo := UserSlice(g, m.scheme + 3),
              host := Slice(m.user, m.host),
              port := if g.port.Some? && g.port.value != [] then Slice(m.host + 1, m.authority) else Unset)
  }

  function UserSlice(g: Generic, a: nat): Slice {
    if g.userinfo.Some? then Slice(a, a + |g.userinfo.value|) else Unset
  }

  /** The components at their places. */
  function Components(g: Generic, m: Marks, end: nat): Parts {
    Opened(g, m).(netPath := Slice(m.scheme + 1, m.path),
                  absPath := if g.path != [] then Slice(m.authority, m.path) else Unset,
                  query := if g.query.Some? then Slice(m.path + 1, m.query) else Unset,
                  fragment := if g.fragment.Some? then Slice(m.query + 1, end) else Unset)
  }

  /** What the parser ought to answer: everything is read, every component is
      where it was written. */
  function Expected(g: Generic): Parse
    requires g.host.labels != []
  {
    Parse(true, |Text(g)|, Components(g, MarksOf(g), |Text(g)|))
  }

  lemma Cut(t: seq<char>, p: nat, e: nat, a: seq<char>, b: seq<char>)
    requires p <= e <= |t| && t[p..e] == a + b
    ensures p + |a| <= e && t[p..p + |a|] == a && t[p + |a|..e] == b
  {
    assert |t[p..e]| == |a| + |b|;
    assert t[p..p + |a|] == t[p..e][..|a|] && t[p + |a|..e] == t[p..e][|a|..];
  }

  /** The text is these nine pieces, one behind the other. */
  predicate Laid(t: seq<char>, s: seq<char>, c: seq<char>, d: seq<char>, i: seq<char>, h: seq<char>, p: seq<char>,
                 w: seq<char>, q: seq<char>, f: seq<char>)
  {
    var a := |s| + |c| + |d|;
    var b := a + |i|;
    var e := b + |h| + |p| + |w|;
    && |t| == e + |q| + |f|
    && t[0..|s|] == s && t[|s|..|s| + |c|] == c && t[|s| + |c|..a] == d && t[a..b] == i && t[b..b + |h|] == h
    && t[b + |h|..b + |h| + |p|] == p && t[b + |h| + |p|..e] == w && t[e..e + |q|] == q && t[e + |q|..|t|] == f
  }

  lemma CutAll(t: seq<char>, s: seq<char>, c: seq<char>, d: seq<char>, i: seq<char>, h: seq<char>, p: seq<char>,
               w: seq<char>, q: seq<char>, f: seq<char>)
    requires t == (s + c) + (d + (i + (h + p))) + w + q + f
    ensures Laid(t, s, c, d, i, h, p, w, q, f)
  {
    var a := |s| + |c| + |d|;
    var m := a + |i| + |h| + |p|;
    assert t[0..|t|] == t;
    Cut(t, 0, |t|, (s + c) + (d + (i + (h + p))) + w + q, f);
    Cut(t, 0, m + |w| + |q|, (s + c) + (d + (i + (h + p))) + w, q);
    Cut(t, 0, m + |w|, (s + c) + (d + (i + (h + p))), w);
    Cut(t, 0, m, s + c, d + (i + (h + p)));
    Cut(t, 0, |s| + |c|, s, c);
    Cut(t, |s| + |c|, m, d, i + (h + p));
    Cut(t, a, m, i, h + p);
    Cut(t, a + |i|, m, h, p);
  }

  /** Where each component lies in the text. */
  lemma Layout(g: Generic)
    requires g.host.labels != []
    ensures Laid(Text(g), g.scheme, ":", "//", Before(g.userinfo, '@'), HostText(g.host), After(':', g.port), g.path,
                 After('?', g.query), After('#', g.fragment))
  {
    hide HostText;
    CutAll(Text(g), g.scheme, ":", "//", Before(g.userinfo, '@'), HostText(g.host), After(':', g.port), g.path,
           After('?', g.query), After('#', g.fragment));
  }

  /** One label, up to a byte that is no label character. */
  lemma LabelAt(t: seq<char>, p: nat, w: seq<char>)
    requires LegalLabel(w) && p + |w| <= |t| && t[p..p + |w|] == w && Closed(Label, t, p + |w|)
    ensures Scan(Label, t, p) == p + |w| && LabelOk(t, p, false) && p < |t|
    ensures LabelOk(t, p, true) <==> Alpha(w[0])
  {
    assert forall k :: p <= k < p + |w| ==> t[k] == w[k - p];
    ScanClean(Label, t, p, p + |w|);
  }

  lemma LabelsUnfold(labels: seq<seq<char>>)
    requires LegalLabels(labels)
    ensures labels != [] && LegalLabel(labels[0]) && labels[0] != []
    ensures if |labels| == 1 then Dotted(labels) == labels[0] == Last(labels)
            else LegalLabels(labels[1..]) && Last(labels[1..]) == Last(labels)
  {
  }

  /** The numbers of an address are labels, the last of which is no top label. */
  lemma {:induction false} NumbersAreLabels(numbers: seq<seq<char>>)
    requires numbers != [] && AllNumbers(numbers)
    ensures LegalLabels(numbers) && Last(numbers) != [] && !Alpha(Last(numbers)[0])
  {
    assert numbers[0] != [] && Digits(numbers[0]) && Digits(Last(numbers));
    if |numbers| > 1 { NumbersAreLabels(numbers[1..]); }
  }

  lemma HostLabels(h: Server)
    requires LegalHost(h)
    ensures LegalLabels(h.labels) && Last(h.labels) != [] && (Alpha(Last(h.labels)[0]) <==> h.Name?)
  {
    if h.Address? { NumbersAreLabels(h.labels); }
  }

  lemma FirstLabel(t: seq<char>, p: nat, e: nat, labels: seq<seq<char>>)
    requires |labels| > 1 && p <= e <= |t| && t[p..e] == Dotted(labels)
    ensures var m := p + |labels[0]|;
      && m < e && t[p..m] == labels[0] && t[m + 1..e] == Dotted(labels[1..])
      && Is(t, m, '.') && Closed(Label, t, m)
  {
    var w, rest := labels[0], Dotted(labels[1..]);
    var m := p + |w|;
    assert t[p..e] == w + ("." + rest);
    hide Dotted;
    Cut(t, p, e, w, "." + rest);
    assert t[m] == t[m..e][0] == '.';
    assert t[m + 1..e] == t[m..e][1..] == rest;
  }

  lemma LastLabelStep(t: seq<char>, p: nat, last: nat)
    ensures LastLabel(t, p, last) ==
            if !LabelOk(t, p, false) then last
            else if Is(t, Scan(Label, t, p), '.') then LastLabel(t, Scan(Label, t, p) + 1, p)
            else p
  {
  }

  /** The label loop reaches the last label of a host. */
  lemma {:induction false} LastLabelAt(t: seq<char>, p: nat, e: nat, labels: seq<seq<char>>, last: nat)
    requires LegalLabels(labels) && Last(labels) != []
    requires p <= e <= |t| && t[p..e] == Dotted(labels) && Closed(Label, t, e)
    requires Is(t, e, '.') ==> !LabelOk(t, e + 1, false)
    ensures var l := LastLabel(t, p, last);
      (LabelOk(t, l, true) <==> Alpha(Last(labels)[0])) && Scan(Label, t, l) == e
    decreases |labels|
  {
    hide *;
    LastLabelStep(t, p, last);
    LabelsUnfold(labels);
    if |labels| == 1 {
      LabelAt(t, p, labels[0]);
      LastLabelStep(t, e + 1, p);
    } else {
      FirstLabel(t, p, e, labels);
      LabelAt(t, p, labels[0]);
      LastLabelAt(t, p + |labels[0]| + 1, e, labels[1..], p);
    }
  }

  lemma NoLabelAt(t: seq<char>, e: nat)
    requires e == |t| || (e < |t| && t[e] in "/:?# ")
    ensures !LabelOk(t, e, false) && !Is(t, e, '.') && Closed(Label, t, e)
    ensures e > 0 && Is(t, e - 1, '.') ==> Closed(Label, t, e - 1)
  {
  }

  /** A hostname is read as one, an address is not. */
  lemma HostnameAt(t: seq<char>, p: nat, e: nat, h: Server)
    requires LegalHost(h) && p <= e <= |t| && t[p..e] == HostText(h)
    requires e == |t| || t[e] in "/:?# "
    ensures Hostname(t, p) == if h.Name? then (true, e) else (false, p)
  {
    NoLabelAt(t, e);
    HostLabels(h);
    hide LegalLabels, Dotted, LabelOk, LastLabel, Scan, In, Closed, LegalHost, Last;
    if h.Name? && h.finalDot {
      Cut(t, p, e, Dotted(h.labels), ".");
      assert t[e - 1] == t[e - 1..e][0] == '.';
      LastLabelAt(t, p, e - 1, h.labels, p);
    } else {
      assert Dotted(h.labels) + "" == Dotted(h.labels);
      LastLabelAt(t, p, e, h.labels, p);
    }
  }

  lemma OneNumber(t: seq<char>, p: nat, w: seq<char>)
    requires w != [] && Digits(w) && p + |w| <= |t| && t[p..p + |w|] == w && Closed(Number, t, p + |w|)
    ensures Digit(CharAt(t, p)) && Scan(Number, t, p + 1) == p + |w|
  {
    assert forall k :: p <= k < p + |w| ==> t[k] == w[k - p];
    ScanClean(Number, t, p + 1, p + |w|);
  }

  lemma NotANumber(t: seq<char>, e: nat)
    requires e == |t| || Is(t, e, '.') || (e < |t| && t[e] in "/:?# ")
    ensures Closed(Number, t, e)
  {
  }

  lemma AllNumbersUnfold(numbers: seq<seq<char>>)
    requires AllNumbers(numbers) && numbers != []
    ensures numbers[0] != [] && Digits(numbers[0]) && AllNumbers(numbers[1..])
  {
    hide Digits;
    assert numbers[0] != [] && Digits(numbers[0]);
  }

  /** The numbers lie between `p` and `e`, where the host ends. */
  predicate NumbersLie(t: seq<char>, p: nat, e: nat, numbers: seq<seq<char>>)
    requires numbers != []
  {
    p <= e <= |t| && t[p..e] == Dotted(numbers) && (e == |t| || t[e] in "/:?# ")
  }

  lemma LastNumber(t: seq<char>, p: nat, e: nat, number: seq<char>)
    requires NumbersLie(t, p, e, [number]) && number != [] && Digits(number)
    ensures Digit(CharAt(t, p)) && Scan(Number, t, p + 1) == e
    ensures HasNext(t, p) <==> !(e == |t| && |number| == 1)
  {
    assert t[p..e] == number;
    NotANumber(t, e);
    OneNumber(t, p, number);
  }

  lemma FirstNumber(t: seq<char>, p: nat, e: nat, numbers: seq<seq<char>>)
    requires |numbers| > 1 && NumbersLie(t, p, e, numbers) && numbers[0] != [] && Digits(numbers[0])
    ensures var m := p + |numbers[0]|;
      && Digit(CharAt(t, p)) && Scan(Number, t, p + 1) == m && HasNext(t, p) && Is(t, m, '.')
      && NumbersLie(t, m + 1, e, numbers[1..])
  {
    hide Dotted, Digits, Digit, Scan;
    FirstLabel(t, p, e, numbers);
    var m := p + |numbers[0]|;
    NotANumber(t, m);
    OneNumber(t, p, numbers[0]);
  }

  lemma LastOfMore(labels: seq<seq<char>>)
    requires labels != []
    ensures if |labels| == 1 then labels == [Last(labels)] else Last(labels[1..]) == Last(labels)
  {
  }

  /** The last numbers of an address are read, unless the very last has one
      digit and ends the text. */
  lemma {:induction false} NumbersAt(t: seq<char>, p: nat, e: nat, numbers: seq<seq<char>>, i: nat)
    requires i < 4 && |numbers| == 4 - i && AllNumbers(numbers) && NumbersLie(t, p, e, numbers)
    ensures Numbers(t, p, i).0 <==> !(e == |t| && |Last(numbers)| == 1)
    ensures Numbers(t, p, i).0 ==> Numbers(t, p, i).1 == e
    decreases |numbers|
  {
    hide *;
    AllNumbersUnfold(numbers);
    LastOfMore(numbers);
    if i == 3 {
      LastNumber(t, p, e, numbers[0]);
      NumbersUnfold(t, p, i);
    } else {
      FirstNumber(t, p, e, numbers);
      var m := p + |numbers[0]|;
      NumbersUnfold(t, p, i);
      NumbersAt(t, m + 1, e, numbers[1..], i + 1);
    }
  }

  /** The host is found, unless it is an address whose last number has one
      digit and ends the text. */
  predicate HostKept(h: Server, isEnd: bool)
    requires h.labels != []
  {
    h.Address? && isEnd ==> |Last(h.labels)| > 1
  }

  lemma HostAt(t: seq<char>, a: nat, h: nat, host: Server, parts: Parts)
    requires LegalHost(host) && a <= h <= |t| && t[a..h] == HostText(host) && (h == |t| || t[h] in "/:?# ")
    ensures Host(t, a, parts) ==
            if HostKept(host, h == |t|) then Parse(true, h, parts.(host := Slice(a, h))) else Parse(false, a, parts)
  {
    HostnameAt(t, a, h, host);
    hide Hostname, Numbers, Dotted;
    if host.Address? {
      assert Dotted(host.labels) + "" == Dotted(host.labels);
      assert NumbersLie(t, a, h, host.labels);
      NumbersAt(t, a, h, host.labels, 0);
      assert Last(host.labels) != [];
    }
  }

  lemma {:induction false} HostIsUserinfo(labels: seq<seq<char>>)
    requires LegalLabels(labels)
    ensures forall k :: 0 <= k < |Dotted(labels)| ==> In(Userinfo, Dotted(labels)[k])
    decreases |labels|
  {
    assert forall c :: In(Label, c) ==> In(Userinfo, c);
    assert In(Userinfo, '.');
    LabelsUnfold(labels);
    hide In, Last;
    if |labels| > 1 { HostIsUserinfo(labels[1..]); }
  }

  /** A host with a port is no user information. */
  lemma NoUserinfo(t: seq<char>, a: nat, h: nat, u: nat, g: Generic)
    requires LegalUri(g) && a <= h <= u <= |t| && t[a..h] == HostText(g.host) && t[h..u] == After(':', g.port)
    requires u == |t| || t[u] in "/?# "
    ensures Scan(Userinfo, t, a) == u
  {
    HostLabels(g.host);
    HostIsUserinfo(g.host.labels);
    assert forall c :: Digit(c) ==> In(Userinfo, c);
    assert In(Userinfo, '.') && In(Userinfo, ':');
    assert Closed(Userinfo, t, u);
    hide In, Dotted, LegalHost, LegalLabels, Last, Digit, Legal;
    forall k | a <= k < u ensures In(Userinfo, t[k]) {
      if k < h { assert t[k] == HostText(g.host)[k - a]; } else { assert t[k] == After(':', g.port)[k - h]; }
    }
    ScanClean(Userinfo, t, a, u);
  }

  /** User information is found exactly when no escape swallows the '@'. */
  lemma UserinfoAt(t: seq<char>, a: nat, s: nat, w: seq<char>)
    requires Legal(Userinfo, w) && a <= s <= |t| && t[a..s] == w + ['@']
    ensures a + |w| < |t| && s == a + |w| + 1 && t[a + |w|] == '@'
    ensures Scan(Userinfo, t, a) == a + |w| <==> Clean(Userinfo, w)
  {
    Cut(t, a, s, w, ['@']);
    assert t[a + |w|] == t[a + |w|..s][0];
    assert Closed(Userinfo, t, a + |w|) by { AtSignCloses(t, a + |w|); }
    hide In, Legal, Clean, Scan, Closed;
    ScanLegal(Userinfo, t, a, a + |w|);
  }

  lemma AtSignCloses(t: seq<char>, e: nat)
    requires Is(t, e, '@') && e < |t|
    ensures Closed(Userinfo, t, e)
  {
  }

  lemma PortAt(t: seq<char>, h: nat, u: nat, g: Generic, parts: Parts)
    requires LegalUri(g) && h <= u <= |t| && t[h..u] == After(':', g.port)
    requires u == |t| || t[u] in "/?# "
    ensures if g.port.Some? then
              && Is(t, h, ':')
              && Port(t, h + 1, parts) ==
                 (if g.port.value != [] then Parse(true, u, parts.(port := Slice(h + 1, u)))
                  else Parse(false, u, parts))
            else h == u && !Is(t, h, ':')
  {
    if g.port.Some? {
      assert t[h] == t[h..u][0] == ':';
      assert forall k :: h + 1 <= k < u ==> t[k] == t[h..u][k - h] == g.port.value[k - h - 1];
      ScanClean(Number, t, h + 1, u);
    }
  }

  /** Host and port lie between `s`, `h` and `u`, where the authority ends. */
  predicate ServerLies(t: seq<char>, s: nat, h: nat, u: nat, g: Generic)
    requires g.host.labels != []
  {
    && s <= h <= u <= |t| && t[s..h] == HostText(g.host) && t[h..u] == After(':', g.port)
    && (u == |t| || t[u] in "/?# ")
  }

  lemma ServerInside(t: seq<char>, s: nat, h: nat, u: nat, g: Generic)
    requires g.host.labels != [] && ServerLies(t, s, h, u, g)
    ensures s <= h <= u <= |t|
  {
  }

  /** Host and port at their places. */
  function HostportRead(a: nat, h: nat, u: nat, g: Generic, parts: Parts): Parse {
    Parse(true, u, parts.(host := Slice(a, h),
                          port := if g.port.Some? && g.port.value != [] then Slice(h + 1, u) else parts.port))
  }

  lemma HostportAt(t: seq<char>, a: nat, h: nat, u: nat, g: Generic, parts: Parts)
    requires LegalUri(g) && ServerLies(t, a, h, u, g)
    ensures Hostport(t, a, parts) ==
            if HostKept(g.host, h == |t|) then HostportRead(a, h, u, g, parts) else Parse(false, a, parts)
  {
    PortAt(t, h, u, g, parts.(host := Slice(a, h)));
    assert h < u ==> t[h] == t[h..u][0];
    HostAt(t, a, h, g.host, parts);
    hide Host, Port, In, LegalHost, HostText, HostKept, Legal;
  }

  lemma HostportKeepsUserinfo(t: seq<char>, p: nat, parts: Parts)
    ensures Hostport(t, p, parts).parts.userinfo == parts.userinfo
  {
  }

  predicate UserKept(g: Generic) { g.userinfo.Some? ==> Clean(Userinfo, g.userinfo.value) }

  /** Without user information. */
  lemma ServerAt(t: seq<char>, a: nat, h: nat, u: nat, g: Generic, parts: Parts)
    requires LegalUri(g) && ServerLies(t, a, h, u, g) && g.userinfo.None? && parts.userinfo.Unset?
    ensures var r := Authority(t, a, parts);
      if HostKept(g.host, h == |t|)
      then r == Parse(true, u, ServerRead(a, a, h, u, g, parts))
      else r.parts.host == parts.host
  {
    assert parts.(userinfo := UserSlice(g, a)) == parts;
    NoUserinfo(t, a, h, u, g);
    hide Hostport, Scan, LegalUri, HostText, After, HostKept, ServerLies;
    ServerInside(t, a, h, u, g);
    HostportAt(t, a, h, u, g, parts);
  }

  lemma AuthorityWith(t: seq<char>, p: nat, e: nat, parts: Parts)
    requires e == Scan(Userinfo, t, p) && Is(t, e, '@')
    ensures var h := Hostport(t, e + 1, parts.(userinfo := Slice(p, e)));
      Authority(t, p, parts) ==
      if h.ok then Parse(true, h.pos, h.parts.(authority := Slice(p, h.pos)))
      else Parse(true, p, h.parts.(userinfo := Unset, authority := Slice(p, p)))
  {
    hide Hostport, Scan;
  }

  lemma AuthorityUser(t: seq<char>, p: nat, parts: Parts)
    requires parts.userinfo.Unset?
    ensures Authority(t, p, parts).parts.userinfo in {Unset, Slice(p, Scan(Userinfo, t, p))}
  {
    var e := Scan(Userinfo, t, p);
    HostportKeepsUserinfo(t, e + 1, parts.(userinfo := Slice(p, e)));
    HostportKeepsUserinfo(t, p, parts);
    hide Hostport, Scan;
  }

  /** Behind user information that is found. */
  lemma UserKeptAt(t: seq<char>, a: nat, s: nat, h: nat, u: nat, g: Generic, parts: Parts)
    requires LegalUri(g) && s > 0 && Is(t, s - 1, '@') && Scan(Userinfo, t, a) == s - 1 && ServerLies(t, s, h, u, g)
    ensures var r := Authority(t, a, parts); var mine := parts.(userinfo := Slice(a, s - 1));
      if HostKept(g.host, h == |t|)
      then r == Parse(true, u, HostportRead(s, h, u, g, mine).parts.(authority := Slice(a, u)))
      else r.parts.host == parts.host
  {
    hide Hostport, Scan, LegalUri, ServerLies, HostKept, Authority;
    HostportAt(t, s, h, u, g, parts.(userinfo := Slice(a, s - 1)));
    AuthorityWith(t, a, s - 1, parts);
  }

  /** The parts behind the authority, whose host starts at `s`. */
  function ServerRead(a: nat, s: nat, h: nat, u: nat, g: Generic, parts: Parts): Parts {
    HostportRead(s, h, u, g, parts.(userinfo := UserSlice(g, a))).parts.(authority := Slice(a, u))
  }

  lemma UserPlace(t: seq<char>, a: nat, s: nat, g: Generic)
    requires LegalUri(g) && g.userinfo.Some? && a <= s <= |t| && t[a..s] == g.userinfo.value + ['@']
    ensures s > 0 && Is(t, s - 1, '@') && UserSlice(g, a) == Slice(a, s - 1)
    ensures Scan(Userinfo, t, a) == s - 1 <==> UserKept(g)
  {
    LegalUser(g);
    hide Scan, LegalUri, Clean, Legal;
    UserinfoAt(t, a, s, g.userinfo.value);
  }

  /** Behind user information. */
  lemma UserServerAt(t: seq<char>, a: nat, s: nat, h: nat, u: nat, g: Generic, parts: Parts)
    requires LegalUri(g) && g.userinfo.Some? && a <= s <= |t| && t[a..s] == g.userinfo.value + ['@']
    requires ServerLies(t, s, h, u, g) && parts.userinfo.Unset?
    ensures var r := Authority(t, a, parts);
      if !UserKept(g) then r.parts.userinfo != UserSlice(g, a)
      else if HostKept(g.host, h == |t|) then r == Parse(true, u, ServerRead(a, s, h, u, g, parts))
      else r.parts.host == parts.host
  {
    hide UserKept, Scan, LegalUri, HostKept, Authority, HostportRead, ServerLies, UserSlice;
    UserPlace(t, a, s, g);
    if UserKept(g) { UserKeptAt(t, a, s, h, u, g, parts); } else { AuthorityUser(t, a, parts); }
  }

  lemma LegalUser(g: Generic)
    requires LegalUri(g) && g.userinfo.Some?
    ensures Legal(Userinfo, g.userinfo.value)
  {
  }

  /** The path ends where it should, unless an escape before another component
      swallows the separator. */
  lemma PathAt(t: seq<char>, u: nat, e: nat, path: seq<char>, parts: Parts)
    requires u <= e <= |t| && t[u..e] == path && (path != [] ==> path[0] == '/') && Legal(PathChar, path)
    requires e == |t| || t[e] in "?# "
    ensures var r := AbsPath(t, u, parts);
      && (path == [] ==> r == Parse(false, u, parts) && u == e)
      && (path != [] ==> r.ok && r.parts == parts.(absPath := Slice(u, r.pos)))
      && (r.pos == e <==> Clean(PathChar, path) || e == |t|)
  {
    if path != [] {
      assert t[u] == path[0];
      assert Closed(PathChar, t, e);
      assert Starts(PathChar, t, u) && Step(PathChar, t, u) == u + 1;
      hide In, Starts, Step, Closed, Clean, Legal, PathEnd;
      PathIsFlat(t, u + 1);
      assert Scan(PathChar, t, u) == Scan(PathChar, t, u + 1);
      ScanLegal(PathChar, t, u, e);
    }
  }

  /** Query and fragment, behind a path that ended where it should. */
  lemma QueryAt(t: seq<char>, e: nat, q: nat, query: Option<seq<char>>, parts: Parts)
    requires e <= q <= |t| && t[e..q] == After('?', query) && (query.Some? ==> Legal(Uric, query.value))
    requires q == |t| || t[q] == '#'
    ensures query.None? ==> q == e && !Is(t, e, '?')
    ensures query.Some? ==>
      var r := Query(t, e + 1, parts);
      && Is(t, e, '?') && r.ok && r.parts == parts.(query := Slice(e + 1, r.pos))
      && (r.pos == q <==> Clean(Uric, query.value) || q == |t|)
  {
    if query.Some? {
      assert t[e] == t[e..q][0] == '?';
      assert t[e + 1..q] == t[e..q][1..] == query.value;
      ScanLegal(Uric, t, e + 1, q);
    }
  }

  lemma FragmentAt(t: seq<char>, q: nat, fragment: Option<seq<char>>, parts: Parts)
    requires q <= |t| && t[q..] == After('#', fragment) && (fragment.Some? ==> Legal(Uric, fragment.value))
    ensures fragment.None? ==> q == |t| && !Is(t, q, '#')
    ensures fragment.Some? ==>
      && Is(t, q, '#')
      && Fragment(t, q + 1, parts) == Parse(true, |t|, parts.(fragment := Slice(q + 1, |t|)))
  {
    if fragment.Some? {
      assert t[q] == t[q..][0] == '#';
      assert t[q + 1..|t|] == t[q..][1..] == fragment.value;
      ScanLegal(Uric, t, q + 1, |t|);
    }
  }

  /** The components lie in the text as the marks say. */
  predicate Marked(g: Generic, t: seq<char>, m: Marks)
    requires g.host.labels != []
  {
    && m.scheme + 3 <= m.user <= m.host <= m.authority <= m.path <= m.query <= |t|
    && t[..m.scheme] == g.scheme && t[m.scheme] == ':' && t[m.scheme + 1] == t[m.scheme + 2] == '/'
    && t[m.scheme + 3..m.user] == Before(g.userinfo, '@')
    && t[m.user..m.host] == HostText(g.host) && t[m.host..m.authority] == After(':', g.port)
    && t[m.authority..m.path] == g.path && t[m.path..m.query] == After('?', g.query)
    && t[m.query..] == After('#', g.fragment)
  }

  lemma FirstTwo(t: seq<char>, s: seq<char>, c: seq<char>, d: seq<char>, i: seq<char>, h: seq<char>, p: seq<char>,
                 w: seq<char>, q: seq<char>, f: seq<char>)
    requires Laid(t, s, c, d, i, h, p, w, q, f) && |c| == 1 && |d| == 2
    ensures t[|s|] == c[0] && t[|s| + 1] == d[0] && t[|s| + 2] == d[1] && t[..|s|] == s
  {
    assert t[|s|] == t[|s|..|s| + 1][0];
    assert t[|s| + 1] == t[|s| + 1..|s| + 3][0] && t[|s| + 2] == t[|s| + 1..|s| + 3][1];
  }

  lemma TextIsMarked(g: Generic)
    requires g.host.labels != []
    ensures Marked(g, Text(g), MarksOf(g))
  {
    hide HostText, After, Before, Text;
    Layout(g);
    FirstTwo(Text(g), g.scheme, ":", "//", Before(g.userinfo, '@'), HostText(g.host), After(':', g.port), g.path,
             After('?', g.query), After('#', g.fragment));
  }

  /** The bytes the components are followed by. */
  lemma Borders(g: Generic, t: seq<char>, m: Marks)
    requires LegalUri(g) && Marked(g, t, m)
    ensures (m.query == |t| || t[m.query] == '#') && (m.path == |t| || t[m.path] in "?#")
    ensures m.authority == |t| || t[m.authority] in "/?#"
    ensures m.path == |t| <==> g.query.None? && g.fragment.None?
    ensures m.query == |t| <==> g.fragment.None?
    ensures m.host == |t| <==> g.port.None? && g.path == [] && g.query.None? && g.fragment.None?
  {
    hide HostText, LegalHost, In, Legal, Before, Digits;
    assert m.query < |t| ==> t[m.query] == t[m.query..][0];
    assert m.path < m.query ==> t[m.path] == t[m.path..m.query][0];
    assert m.authority < m.path ==> t[m.authority] == t[m.authority..m.path][0];
  }

  /** The address whose last number has one digit and ends the text. */
  predicate EndsInOneDigit(g: Generic)
    requires g.host.labels != []
  {
    g.host.Address? && |Last(g.host.labels)| == 1
    && g.port.None? && g.path == [] && g.query.None? && g.fragment.None?
  }

  lemma SchemeAt(t: seq<char>, w: seq<char>)
    requires w != [] && Alpha(w[0]) && (forall k :: 0 <= k < |w| ==> In(SchemeChar, w[k]))
    requires |w| < |t| && t[..|w|] == w && t[|w|] == ':'
    ensures Scheme(t, 0, NO_PARTS) == Parse(true, |w|, NO_PARTS.(scheme := Slice(0, |w|)))
  {
    assert forall k :: 0 <= k < |w| ==> t[k] == w[k];
    ScanClean(SchemeChar, t, 0, |w|);
  }

  /** What the parser holds behind the authority. */
  function AuthorityFound(t: seq<char>, m: Marks): Parse {
    Authority(t, m.scheme + 3, NO_PARTS.(scheme := Slice(0, m.scheme)))
  }

  /** The network path of the text, given what authority and path functions answer. */
  function NetPathRead(t: seq<char>, m: Marks): Parse {
    var a := AuthorityFound(t, m);
    var r := AbsPath(t, a.pos, a.parts);
    Parse(true, r.pos, r.parts.(netPath := Slice(m.scheme + 1, r.pos)))
  }

  lemma SchemeRead(g: Generic, t: seq<char>, m: Marks)
    requires LegalUri(g) && Marked(g, t, m)
    ensures Scheme(t, 0, NO_PARTS) == Parse(true, m.scheme, NO_PARTS.(scheme := Slice(0, m.scheme)))
    ensures m.scheme + 3 <= |t| && Is(t, m.scheme, ':') && Is(t, m.scheme + 1, '/') && Is(t, m.scheme + 2, '/')
  {
    hide LegalHost, HostText, Before, After, Legal;
    assert m.scheme == |g.scheme|;
    SchemeAt(t, g.scheme);
  }

  /** Scheme and authority are found exactly when no escape swallows the '@'
      and the text is not an address that ends in a lone digit. */
  lemma AuthorityRead(g: Generic, t: seq<char>, m: Marks)
    requires LegalUri(g) && Marked(g, t, m)
    ensures var r := AuthorityFound(t, m);
      if UserKept(g) && !EndsInOneDigit(g) then r == Parse(true, m.authority, Opened(g, m))
      else if UserKept(g) then r.parts.host.Unset?
      else r.parts.userinfo != Opened(g, m).userinfo
  {
    hide *;
    LegalHasHost(g);
    MarkedServer(g, t, m);
    OpenedIs(g, m);
    KeptIff(g, t, m);
    AuthorityFoundIs(t, m);
    var parts := NO_PARTS.(scheme := Slice(0, m.scheme));
    if g.userinfo.Some? {
      UserServerAt(t, m.scheme + 3, m.user, m.host, m.authority, g, parts);
    } else {
      NoneIsKept(g);
      ServerAt(t, m.scheme + 3, m.host, m.authority, g, parts);
    }
  }

  lemma AuthorityFoundIs(t: seq<char>, m: Marks)
    ensures var parts := NO_PARTS.(scheme := Slice(0, m.scheme));
      && AuthorityFound(t, m) == Authority(t, m.scheme + 3, parts)
      && parts.userinfo.Unset? && parts.host.Unset?
  {
    hide Authority;
  }

  lemma KeptIff(g: Generic, t: seq<char>, m: Marks)
    requires LegalUri(g) && Marked(g, t, m) && g.host.labels != [] && |Last(g.host.labels)| > 0
    ensures HostKept(g.host, m.host == |t|) <==> !EndsInOneDigit(g)
  {
    hide LegalUri, Marked, Last;
    Borders(g, t, m);
  }

  lemma NoneIsKept(g: Generic)
    requires g.userinfo.None?
    ensures UserKept(g)
  {
  }

  lemma OpenedIs(g: Generic, m: Marks)
    ensures var a := m.scheme + 3;
      var parts := NO_PARTS.(scheme := Slice(0, m.scheme));
      && Opened(g, m) == ServerRead(a, m.user, m.host, m.authority, g, parts)
      && Opened(g, m).userinfo == UserSlice(g, a)
  {
  }

  lemma LegalHasHost(g: Generic)
    requires LegalUri(g)
    ensures g.host.labels != [] && |Last(g.host.labels)| > 0
  {
    LastIsLong(g.host);
  }

  lemma LastIsLong(h: Server)
    requires LegalHost(h)
    ensures h.labels != [] && |Last(h.labels)| > 0
  {
    HostLabels(h);
  }

  lemma MarkedServer(g: Generic, t: seq<char>, m: Marks)
    requires LegalUri(g) && Marked(g, t, m)
    ensures m.scheme + 3 <= m.user <= |t| && g.host.labels != []
    ensures g.userinfo.Some? ==> t[m.scheme + 3..m.user] == g.userinfo.value + ['@']
    ensures g.userinfo.None? ==> m.user == m.scheme + 3
    ensures ServerLies(t, m.user, m.host, m.authority, g)
  {
    Borders(g, t, m);
    LastIsLong(g.host);
    hide HostText, LegalUri, Last, After;
    assert |t[m.scheme + 3..m.user]| == m.user - (m.scheme + 3);
  }

  lemma NetPathAt(g: Generic, t: seq<char>, m: Marks)
    requires LegalUri(g) && Marked(g, t, m)
    ensures NetPath(t, m.scheme + 1, NO_PARTS.(scheme := Slice(0, m.scheme))) == NetPathRead(t, m)
  {
    SchemeRead(g, t, m);
    hide LegalUri, Marked, Authority, AbsPath;
  }

  /** The parser reads the scheme as it is, and goes on to authority and path. */
  lemma AbsoluteRead(g: Generic, t: seq<char>, m: Marks)
    requires LegalUri(g) && Marked(g, t, m)
    ensures AbsoluteUri(t, 0, NO_PARTS) == WithQuery(t, m.scheme + 1, NetPathRead(t, m))
    ensures m.scheme < NetPathRead(t, m).pos <= |t|
  {
    hide LegalUri, Marked, Scheme, NetPath, Query, AbsPath, Authority;
    SchemeRead(g, t, m);
    NetPathAt(g, t, m);
  }

  lemma PathMarked(g: Generic, t: seq<char>, m: Marks)
    requires LegalUri(g) && Marked(g, t, m)
    ensures m.authority <= m.path <= |t| && t[m.authority..m.path] == g.path
    ensures (g.path != [] ==> g.path[0] == '/') && Legal(PathChar, g.path)
  {
    hide HostText, LegalHost, Before, After, Legal, Digits;
  }

  lemma NoPathYet(g: Generic, m: Marks)
    ensures Opened(g, m).absPath.Unset?
  {
  }

  lemma PathRead(g: Generic, t: seq<char>, m: Marks)
    requires LegalUri(g) && Marked(g, t, m) && AuthorityFound(t, m) == Parse(true, m.authority, Opened(g, m))
    ensures var n := NetPathRead(t, m);
      && n.parts == Opened(g, m).(netPath := Slice(m.scheme + 1, n.pos),
                                  absPath := if g.path != [] then Slice(m.authority, n.pos) else Unset)
      && (n.pos == m.path <==> Clean(PathChar, g.path) || (g.query.None? && g.fragment.None?))
      && (g.path == [] ==> n.pos == m.path)
  {
    hide LegalUri, Marked, AbsPath, Clean, Legal, AuthorityFound, Opened;
    Borders(g, t, m);
    PathMarked(g, t, m);
    NoPathYet(g, m);
    PathAt(t, m.authority, m.path, g.path, Opened(g, m));
  }

  /** No escape takes away the byte that separates a component from the next. */
  predicate NothingSwallowed(g: Generic) {
    && UserKept(g)
    && (Clean(PathChar, g.path) || (g.query.None? && g.fragment.None?))
    && (g.query.None? || Clean(Uric, g.query.value) || g.fragment.None?)
  }

  function WithFragment(t: seq<char>, r: Parse): Parse {
    if Is(t, r.pos, '#') then Fragment(t, r.pos + 1, r.parts) else r
  }

  lemma QueryMarked(g: Generic, t: seq<char>, m: Marks)
    requires LegalUri(g) && Marked(g, t, m)
    ensures m.path <= m.query <= |t| && t[m.path..m.query] == After('?', g.query)
    ensures g.query.Some? ==> Legal(Uric, g.query.value)
  {
    hide HostText, LegalHost, Before, After, Legal, Digits;
  }

  lemma QueryRead(g: Generic, t: seq<char>, m: Marks, p: nat, n: Parse)
    requires LegalUri(g) && Marked(g, t, m) && n.ok && n.pos == m.path && p <= m.path
    ensures var w := WithQuery(t, p, n);
      && w.ok && w.parts == (if g.query.Some? then n.parts.(query := Slice(m.path + 1, w.pos)) else n.parts)
      && (w.pos == m.query <==> g.query.None? || Clean(Uric, g.query.value) || g.fragment.None?)
  {
    Borders(g, t, m);
    QueryMarked(g, t, m);
    hide After, LegalUri, Marked, Legal, Query, Clean, WithQuery;
    QueryAt(t, m.path, m.query, g.query, n.parts);
    WithQueryIs(t, p, n);
  }

  lemma WithQueryIs(t: seq<char>, p: nat, n: Parse)
    requires n.ok && p <= n.pos <= |t|
    ensures WithQuery(t, p, n) ==
            if Is(t, n.pos, '?') then Parse(true, Query(t, n.pos + 1, n.parts).pos, Query(t, n.pos + 1, n.parts).parts)
            else n
  {
    hide Query;
  }

  lemma FragmentRead(g: Generic, t: seq<char>, m: Marks, w: Parse)
    requires LegalUri(g) && Marked(g, t, m) && w.ok && w.pos == m.query
    ensures WithFragment(t, w) ==
            Parse(true, |t|, if g.fragment.Some? then w.parts.(fragment := Slice(m.query + 1, |t|)) else w.parts)
  {
    hide HostText, After, LegalHost, In, Legal, Fragment, Before, Digits;
    FragmentAt(t, m.query, g.fragment, w.parts);
  }

  /** The parts the later steps leave alone. */
  lemma LaterParts(t: seq<char>, p: nat, n: Parse)
    requires n.ok && p <= n.pos <= |t|
    ensures WithQuery(t, p, n).ok && p <= WithQuery(t, p, n).pos <= |t|
    ensures WithQuery(t, p, n).parts.absPath == n.parts.absPath
    ensures WithFragment(t, n).parts.absPath == n.parts.absPath && WithFragment(t, n).parts.query == n.parts.query
    ensures WithFragment(t, n).parts.userinfo == n.parts.userinfo == WithQuery(t, p, n).parts.userinfo
    ensures WithFragment(t, n).parts.host == n.parts.host == WithQuery(t, p, n).parts.host
  {
  }

  lemma ReferenceRead(g: Generic, t: seq<char>, m: Marks)
    requires LegalUri(g) && Marked(g, t, m)
    ensures var n := NetPathRead(t, m);
      && n.ok && m.scheme < n.pos <= |t|
      && UriReference(t, 0, NO_PARTS) == WithFragment(t, WithQuery(t, m.scheme + 1, n))
  {
    hide LegalUri, Marked, AbsoluteUri, WithQuery, AbsPath, Authority, Fragment;
    AbsoluteRead(g, t, m);
    LaterParts(t, m.scheme + 1, NetPathRead(t, m));
  }

  lemma NetPathKeepsHost(t: seq<char>, m: Marks)
    ensures NetPathRead(t, m).parts.userinfo == AuthorityFound(t, m).parts.userinfo
    ensures NetPathRead(t, m).parts.host == AuthorityFound(t, m).parts.host
  {
    hide Authority, PathEnd;
  }

  lemma ComponentsIs(g: Generic, m: Marks, end: nat)
    ensures Components(g, m, end).userinfo == Opened(g, m).userinfo && Components(g, m, end).host.Slice?
  {
  }

  /** Once the authority is read as it is. */
  lemma RestIff(g: Generic, t: seq<char>, m: Marks)
    requires LegalUri(g) && Marked(g, t, m)
    requires UserKept(g) && AuthorityFound(t, m) == Parse(true, m.authority, Opened(g, m))
    ensures UriReference(t, 0, NO_PARTS) == Parse(true, |t|, Components(g, m, |t|)) <==> NothingSwallowed(g)
  {
    hide LegalUri, Marked, UriReference, WithQuery, WithFragment, NetPathRead, AuthorityFound, Clean;
    var p, n := m.scheme + 1, NetPathRead(t, m);
    ReferenceRead(g, t, m);
    var w := WithQuery(t, p, n);
    PathRead(g, t, m);
    LaterParts(t, p, n);
    LaterParts(t, p, w);
    if n.pos == m.path {
      QueryRead(g, t, m, p, n);
      if w.pos == m.query { FragmentRead(g, t, m, w); }
    }
  }

  lemma AuthorityStays(g: Generic, t: seq<char>, m: Marks)
    requires LegalUri(g) && Marked(g, t, m)
    ensures var r := UriReference(t, 0, NO_PARTS).parts;
      r.userinfo == AuthorityFound(t, m).parts.userinfo && r.host == AuthorityFound(t, m).parts.host
  {
    hide LegalUri, Marked, UriReference, WithQuery, WithFragment, NetPathRead, AuthorityFound;
    var p, n := m.scheme + 1, NetPathRead(t, m);
    ReferenceRead(g, t, m);
    NetPathKeepsHost(t, m);
    LaterParts(t, p, n);
    LaterParts(t, p, WithQuery(t, p, n));
  }

  lemma ReadIff(g: Generic, t: seq<char>, m: Marks)
    requires LegalUri(g) && Marked(g, t, m)
    ensures UriReference(t, 0, NO_PARTS) == Parse(true, |t|, Components(g, m, |t|))
            <==> NothingSwallowed(g) && !EndsInOneDigit(g)
  {
    LastIsLong(g.host);
    AuthorityRead(g, t, m);
    hide LegalUri, Marked, UriReference, AuthorityFound, EndsInOneDigit, Opened, Components, UserKept;
    ComponentsIs(g, m, |t|);
    AuthorityStays(g, t, m);
    if UserKept(g) && !EndsInOneDigit(g) { RestIff(g, t, m); }
  }

  /** Parsing what the recomposition writes consumes all of it and finds the
      same components exactly when no escape swallows a separator and the text
      is not an IPv4 address that ends in a lone digit. */
  lemma RoundTripIff(g: Generic)
    requires LegalUri(g)
    ensures UriReference(Text(g), 0, NO_PARTS) == Expected(g)
            <==> NothingSwallowed(g) && !EndsInOneDigit(g)
  {
    TextIsMarked(g);
    ReadIff(g, Text(g), MarksOf(g));
    hide UriReference, NothingSwallowed, EndsInOneDigit, Text, MarksOf, Components;
  }

  /** The bytes of a component. */
  function Bytes(t: seq<char>, s: Slice): seq<char>
    requires s.Slice? ==> s.lo <= s.hi <= |t|
  {
    if s.Slice? then t[s.lo..s.hi] else []
  }

  predicate Within(t: seq<char>, s: Slice) { s.Slice? ==> s.lo <= s.hi <= |t| }

  predicate AllWithin(t: seq<char>, p: Parts) {
    Within(t, p.scheme) && Within(t, p.authority) && Within(t, p.host) && Within(t, p.port) && Within(t, p.netPath)
    && Within(t, p.absPath) && Within(t, p.query) && Within(t, p.fragment)
  }

  /** The slices of scheme and server are the components themselves. */
  predicate ServerBack(g: Generic, t: seq<char>, p: Parts)
    requires g.host.labels != []
  {
    && Within(t, p.scheme) && Within(t, p.authority) && Within(t, p.userinfo) && Within(t, p.host) && Within(t, p.port)
    && Bytes(t, p.scheme) == g.scheme && Bytes(t, p.host) == HostText(g.host)
    && Bytes(t, p.authority) == Before(g.userinfo, '@') + (HostText(g.host) + After(':', g.port))
    && (g.userinfo.Some? ==> p.userinfo.Slice? && Bytes(t, p.userinfo) == g.userinfo.value)
    && Bytes(t, p.port) == (if g.port.Some? then g.port.value else [])
  }

  /** The slices of path, query and fragment are the components themselves. */
  predicate PathBack(g: Generic, t: seq<char>, p: Parts) {
    && Within(t, p.netPath) && Within(t, p.absPath) && Within(t, p.query) && Within(t, p.fragment)
    && Bytes(t, p.absPath) == g.path
    && (g.query.Some? ==> p.query.Slice? && Bytes(t, p.query) == g.query.value)
    && (g.fragment.Some? ==> p.fragment.Slice? && Bytes(t, p.fragment) == g.fragment.value)
  }

  lemma OptionalBack(t: seq<char>, i: nat, j: nat, mark: char, o: Option<seq<char>>)
    requires i <= j <= |t| && t[i..j] == After(mark, o)
    ensures o.Some? ==> i + 1 <= j && t[i + 1..j] == o.value
    ensures o.None? ==> i == j
  {
    if o.Some? { assert t[i + 1..j] == t[i..j][1..]; }
  }

  lemma AuthorityBack(t: seq<char>, a: nat, i: nat, h: nat, u: nat)
    requires a <= i <= h <= u <= |t|
    ensures t[a..u] == t[a..i] + (t[i..h] + t[h..u])
  {
  }

  lemma UserBack(t: seq<char>, a: nat, i: nat, o: Option<seq<char>>)
    requires a <= i <= |t| && t[a..i] == Before(o, '@')
    ensures o.Some? ==> a + |o.value| <= |t| && t[a..a + |o.value|] == o.value
  {
    if o.Some? { Cut(t, a, i, o.value, ['@']); }
  }

  lemma MarkedServerReadsBack(g: Generic, t: seq<char>, m: Marks)
    requires g.host.labels != [] && Marked(g, t, m)
    ensures ServerBack(g, t, Opened(g, m))
  {
    hide HostText, After, Before;
    AuthorityBack(t, m.scheme + 3, m.user, m.host, m.authority);
    UserBack(t, m.scheme + 3, m.user, g.userinfo);
    OptionalBack(t, m.host, m.authority, ':', g.port);
  }

  lemma MarkedPathReadsBack(g: Generic, t: seq<char>, m: Marks)
    requires g.host.labels != [] && Marked(g, t, m)
    ensures PathBack(g, t, Components(g, m, |t|))
  {
    hide HostText, After, Before;
    OptionalBack(t, m.path, m.query, '?', g.query);
    OptionalBack(t, m.query, |t|, '#', g.fragment);
  }

  lemma SlicesReadBack(g: Generic)
    requires g.host.labels != []
    ensures var t, p := Text(g), Expected(g).parts; ServerBack(g, t, p) && PathBack(g, t, p)
  {
    TextIsMarked(g);
    hide HostText, Text, MarksOf, Marked, PathBack, Bytes, Opened, Before, After;
    MarkedServerReadsBack(g, Text(g), MarksOf(g));
    MarkedPathReadsBack(g, Text(g), MarksOf(g));
  }

  predicate NoEscape(o: Option<seq<char>>) { o.Some? ==> forall k :: 0 <= k < |o.value| ==> o.value[k] != '%' }

  /** Without escapes only the address that ends in a lone digit fails. */
  lemma EscapeFreeRoundTrips(g: Generic)
    requires LegalUri(g) && NoEscape(g.userinfo) && NoEscape(Some(g.path)) && NoEscape(g.query)
    ensures UriReference(Text(g), 0, NO_PARTS) == Expected(g) <==> !EndsInOneDigit(g)
  {
    RoundTripIff(g);
    hide UriReference, Expected, Text, In, LegalHost;
    LegalNoEscape(PathChar, g.path);
    if g.userinfo.Some? { LegalNoEscape(Userinfo, g.userinfo.value); }
    if g.query.Some? { LegalNoEscape(Uric, g.query.value); }
  }

  /** The host of an address that ends in a lone digit is not found at all. */
  lemma LoneDigitLosesTheHost(g: Generic)
    requires LegalUri(g) && UserKept(g) && EndsInOneDigit(g)
    ensures UriReference(Text(g), 0, NO_PARTS).parts.host.Unset?
  {
    var t, m := Text(g), MarksOf(g);
    TextIsMarked(g);
    AuthorityRead(g, t, m);
    AuthorityStays(g, t, m);
    hide *;
  }

  function BareAddress(scheme: seq<char>, a: char, b: char, c: char, d: char): Generic {
    Generic(scheme, None, Address([[a], [b], [c], [d]]), None, [], None, None)
  }

  lemma BareAddressIs(scheme: seq<char>, a: char, b: char, c: char, d: char)
    requires scheme != [] && (forall k :: 0 <= k < |scheme| ==> Alpha(scheme[k]))
    requires Digit(a) && Digit(b) && Digit(c) && Digit(d)
    ensures LegalUri(BareAddress(scheme, a, b, c, d)) && EndsInOneDigit(BareAddress(scheme, a, b, c, d))
  {
    var g := BareAddress(scheme, a, b, c, d);
    assert Digits([a]) && Digits([b]) && Digits([c]) && Digits([d]);
    assert AllNumbers(g.host.labels);
  }

  lemma DottedStep(c: char, rest: seq<seq<char>>)
    requires rest != []
    ensures Dotted([[c]] + rest) == [c, '.'] + Dotted(rest)
  {
    assert ([[c]] + rest)[1..] == rest;
  }

  lemma DottedDigits(a: char, b: char, c: char, d: char)
    ensures Dotted([[a], [b], [c], [d]]) == [a, '.', b, '.', c, '.', d]
  {
    assert Dotted([[d]]) == [d];
    hide Dotted;
    DottedStep(c, [[d]]);
    DottedStep(b, [[c]] + [[d]]);
    DottedStep(a, [[b]] + ([[c]] + [[d]]));
    assert [[a]] + ([[b]] + ([[c]] + [[d]])) == [[a], [b], [c], [d]];
  }

  lemma BareAddressText(scheme: seq<char>, a: char, b: char, c: char, d: char)
    ensures Text(BareAddress(scheme, a, b, c, d)) == scheme + [':', '/', '/', a, '.', b, '.', c, '.', d]
  {
    DottedDigits(a, b, c, d);
    hide Dotted;
  }

  /** "http://1.2.3.4" is such an address. */
  lemma LoneDigitInput()
    ensures LegalUri(BareAddress("http", '1', '2', '3', '4'))
    ensures Text(BareAddress("http", '1', '2', '3', '4')) == "http://1.2.3.4"
    ensures UriReference("http://1.2.3.4", 0, NO_PARTS).parts.host.Unset?
  {
    hide UriReference, LegalUri, EndsInOneDigit, Text;
    BareAddressIs("http", '1', '2', '3', '4');
    BareAddressText("http", '1', '2', '3', '4');
    assert UserKept(BareAddress("http", '1', '2', '3', '4'));
    LoneDigitLosesTheHost(BareAddress("http", '1', '2', '3', '4'));
  }

  lemma {:induction false} LegalNoEscape(cls: Class, w: seq<char>)
    requires Legal(cls, w) && forall k :: 0 <= k < |w| ==> w[k] != '%'
    ensures Clean(cls, w)
    decreases |w|
  {
    hide In;
    if w != [] {
      assert w[0] != '%';
      LegalNoEscape(cls, w[1..]);
    }
  }

  /** A path that ends in an escape takes the separator behind it along. */
  lemma EscapeBeforeSeparator(g: Generic, w: seq<char>, a: char, b: char)
    requires LegalUri(g) && g.path == w + ['%', a, b] && (forall k :: 0 <= k < |w| ==> In(PathChar, w[k]))
    requires g.query.Some? || g.fragment.Some?
    ensures UriReference(Text(g), 0, NO_PARTS) != Expected(g)
  {
    RoundTripIff(g);
    hide UriReference, Expected, Text, LegalUri;
    NotClean(w, a, b);
  }

  lemma {:induction false} NotClean(w: seq<char>, a: char, b: char)
    requires forall k :: 0 <= k < |w| ==> In(PathChar, w[k])
    ensures !Clean(PathChar, w + ['%', a, b])
  {
    if w != [] {
      NotClean(w[1..], a, b);
      assert (w + ['%', a, b])[1..] == w[1..] + ['%', a, b];
    }
  }
}
