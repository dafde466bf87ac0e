/** Where the components of an accepted text lie: the scheme in front of its ':',
    and user information, host and port side by side in the authority. */
module UriParts {
  import opened Options
  import opened Cursor
  import opened UriGrammar
  import opened UriScan
  import opened UriRoundTrip
  import opened UriReprint
  import opened UriHosts

  // --------------------------------------------------------------------- scheme

  /** The text starts with a letter, more characters of a scheme, and a ':' at `n`. */
  predicate SchemeEndsAt(t: seq<char>, n: nat) {
    0 < n < |t| && Alpha(t[0]) && t[n] == ':' && forall k :: 0 <= k < n ==> In(SchemeChar, t[k])
  }

  lemma ColonIsOnly(t: seq<char>, n: nat)
    requires SchemeEndsAt(t, n)
    ensures Scheme(t, 0, NO_PARTS).ok && Scheme(t, 0, NO_PARTS).pos == n && Is(t, n, ':')
  {
    assert Closed(SchemeChar, t, n);
    ScanClean(SchemeChar, t, 0, n);
  }

  lemma SchemeEnds(t: seq<char>)
    requires Scheme(t, 0, NO_PARTS).ok && Is(t, Scheme(t, 0, NO_PARTS).pos, ':')
    ensures SchemeEndsAt(t, Scheme(t, 0, NO_PARTS).pos)
  {
    ScannedIn(SchemeChar, t, 0);
    AlphaIsScheme(CharAt(t, 0));
    hide In, Scan, Alpha;
  }

  lemma AlphaIsScheme(c: char)
    ensures Alpha(c) ==> In(SchemeChar, c) && c != '\0'
  {
  }

  /** What is left of the scheme when the whole is no absolute URI. */
  lemma SchemeOfAbsolute(t: seq<char>)
    ensures var s, p := Scheme(t, 0, NO_PARTS), AbsoluteUri(t, 0, NO_PARTS).parts;
      p.scheme == if s.ok && Is(t, s.pos, ':') then Slice(0, s.pos) else Unset
  {
    var s := Scheme(t, 0, NO_PARTS);
    SchemeIs(t);
    if s.ok && Is(t, s.pos, ':') {
      HierPrints(t, s.pos + 1, s.parts);
      var h := HierPart(t, s.pos + 1, s.parts);
      SchemeStaysOpaque(t, s.pos + 1, h.parts);
      hide HierPart, Scheme, OpaquePart, RelativeUri, NetPath, AbsPath;
    } else {
      hide Scheme, HierPart, OpaquePart;
    }
  }

  lemma SchemeStaysOpaque(t: seq<char>, p: nat, parts: Parts)
    ensures OpaquePart(t, p, parts).parts.scheme == parts.scheme
  {
    hide Scan;
  }

  lemma SchemeStaysRelative(t: seq<char>, parts: Parts)
    requires Fresh(t, parts)
    ensures RelativeUri(t, 0, parts).parts.scheme == parts.scheme
  {
    if Is(t, 1, '/') { AuthorityWithin(t, 2, parts); }
    hide Authority, PathEnd, Scan;
  }

  /** Whether the text is accepted or not: a scheme is set exactly when the text
      starts with one and its ':', and then it is that one. */
  lemma SchemeIff(t: seq<char>, n: nat)
    ensures var p := UriReference(t, 0, NO_PARTS).parts;
      && (SchemeEndsAt(t, n) ==> p.scheme == Slice(0, n))
      && (p.scheme.Slice? ==> p.scheme.lo == 0 && SchemeEndsAt(t, p.scheme.hi))
  {
    ReferenceIs(t);
    SchemeOfAbsolute(t);
    AbsolutePrints(t);
    var a := AbsoluteUri(t, 0, NO_PARTS);
    if !a.ok { SchemeStaysRelative(t, a.parts); }
    if SchemeEndsAt(t, n) { ColonIsOnly(t, n); }
    var s := Scheme(t, 0, NO_PARTS);
    if s.ok && Is(t, s.pos, ':') { SchemeEnds(t); }
    hide AbsoluteUri, RelativeUri, UriReference, Scheme, SchemeEndsAt, Reprinted, Fresh;
    var b := if a.ok then a else RelativeUri(t, 0, a.parts);
    if Is(t, b.pos, '#') { FragmentIs(t, b); }
  }

  // ------------------------------------------------------------------ authority

  /** Host and port side by side from `a` to `e`; a ':' without digits is taken along. */
  predicate HostportLies(t: seq<char>, a: nat, e: nat, p: Parts) {
    && p.host.Slice? && p.host.lo == a < p.host.hi <= e <= |t|
    && (if p.port.Slice?
        then p.host.hi + 1 < e && t[p.host.hi] == ':' && p.port == Slice(p.host.hi + 1, e)
             && Digits(t[p.host.hi + 1..e])
        else e == p.host.hi || (e == p.host.hi + 1 && t[p.host.hi] == ':'))
  }

  lemma HostNotEmpty(t: seq<char>, p: nat, parts: Parts)
    requires p <= |t| && Host(t, p, parts).ok
    ensures p < Host(t, p, parts).pos <= |t|
    ensures Host(t, p, parts).parts == parts.(host := Slice(p, Host(t, p, parts).pos))
  {
    var h := HostIsFound(t, p, parts);
    SomeText(h);
    hide Hostname, Numbers, HostText, LegalHost, EndsInHyphen;
    assert |t[p..Host(t, p, parts).pos]| > 0;
  }

  lemma SomeText(h: Server)
    requires h.labels != [] && (LegalHost(h) <==> !EndsInHyphen(h))
    ensures HostText(h) != []
  {
    if LegalHost(h) { HostLabels(h); }
    hide LegalHost, LegalLabels;
    LastIsInside(h.labels);
  }

  lemma {:induction false} LastIsInside(labels: seq<seq<char>>)
    requires labels != []
    ensures |Dotted(labels)| >= |Last(labels)|
    decreases |labels|
  {
    LastOfMore(labels);
    hide Last;
    if |labels| > 1 { LastIsInside(labels[1..]); }
  }

  lemma PortDigits(t: seq<char>, p: nat)
    requires p <= |t|
    ensures Digits(t[p..Scan(Number, t, p)]) && Scan(Number, t, p) <= |t|
  {
    ScannedIn(Number, t, p);
    hide Scan;
    var e := Scan(Number, t, p);
    forall k | 0 <= k < e - p ensures Digit(t[p..e][k]) { assert In(Number, t[p + k]); }
  }

  lemma HostportIsFound(t: seq<char>, p: nat, parts: Parts)
    requires p <= |t| && parts.host.Unset? && parts.port.Unset?
    ensures var r := Hostport(t, p, parts);
      if r.ok then HostportLies(t, p, r.pos, r.parts) && r.parts == parts.(host := r.parts.host, port := r.parts.port)
      else r.parts == parts
  {
    var h := Host(t, p, parts);
    if h.ok {
      HostNotEmpty(t, p, parts);
      if Is(t, h.pos, ':') { PortDigits(t, h.pos + 1); }
    }
    HostFails(t, p, parts);
    hide Host, Scan, Digits;
  }

  lemma HostFails(t: seq<char>, p: nat, parts: Parts)
    ensures !Host(t, p, parts).ok ==> Host(t, p, parts).parts == parts
  {
    hide Hostname, Numbers;
  }

  lemma AuthorityWithout(t: seq<char>, p: nat, parts: Parts)
    requires !Is(t, Scan(Userinfo, t, p), '@')
    ensures var h := Hostport(t, p, parts);
      Authority(t, p, parts) ==
      if h.ok then Parse(true, h.pos, h.parts.(authority := Slice(p, h.pos)))
      else Parse(true, p, h.parts.(userinfo := Unset, authority := Slice(p, p)))
  {
    hide Hostport, Scan;
  }

  lemma UserThenHost(t: seq<char>, p: nat, e: nat, r: Parse, parts: Parts, q: Parts)
    requires p <= e < |t| && t[e] == '@' && parts.userinfo == Slice(p, e) && HostportLies(t, e + 1, r.pos, r.parts)
    requires r.parts == parts.(host := r.parts.host, port := r.parts.port)
    requires q == r.parts.(authority := Slice(p, r.pos))
    ensures q.userinfo == Slice(p, e) && HostportLies(t, q.userinfo.hi + 1, r.pos, q)
  {
  }

  /** Every authority is empty, without any component, or it is its user
      information and '@', its host, and ':' and its port, side by side. */
  lemma AuthorityIsFound(t: seq<char>, p: nat, parts: Parts)
    requires p <= |t| && parts.host.Unset? && parts.port.Unset? && parts.userinfo.Unset?
    ensures var r := Authority(t, p, parts); var q := r.parts;
      && q.authority == Slice(p, r.pos)
      && q == parts.(authority := q.authority, userinfo := q.userinfo, host := q.host, port := q.port)
      && (if q.host.Unset? then r.pos == p && q.userinfo.Unset? && q.port.Unset?
          else if q.userinfo.Unset? then HostportLies(t, p, r.pos, q)
          else q.userinfo.lo == p <= q.userinfo.hi < |t| && t[q.userinfo.hi] == '@'
               && HostportLies(t, q.userinfo.hi + 1, r.pos, q))
  {
    hide Hostport, Scan, Authority, Digits;
    var e := Scan(Userinfo, t, p);
    if Is(t, e, '@') {
      var mine := parts.(userinfo := Slice(p, e));
      HostportIsFound(t, e + 1, mine);
      AuthorityWith(t, p, e, parts);
      var h := Hostport(t, e + 1, mine);
      if h.ok { UserThenHost(t, p, e, h, mine, Authority(t, p, parts).parts); }
    } else {
      HostportIsFound(t, p, parts);
      AuthorityWithout(t, p, parts);
    }
  }
}
