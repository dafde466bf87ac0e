/** Parse, then recompose: the recomposition of what the parser found is the
    text it consumed. */
module UriReprint {
  import opened Cursor
  import opened UriGrammar
  import opened UriRoundTrip
  import Resolve

  function PartOf(t: seq<char>, s: Slice): Resolve.Part
    requires Within(t, s)
  {
    if s.Slice? then SetPart(t[s.lo..s.hi]) else Resolve.UNSET
  }

  /** The recomposition of the components found. */
  function Printed(t: seq<char>, p: Parts): seq<char>
    requires AllWithin(t, p)
  {
    Resolve.Recomposed(PartOf(t, p.scheme), PartOf(t, p.authority), Bytes(t, p.absPath),
                       PartOf(t, p.query), PartOf(t, p.fragment))
  }

  function HierPrinted(t: seq<char>, p: Parts): seq<char>
    requires AllWithin(t, p)
  {
    Resolve.Prefixed(PartOf(t, p.authority), "//") + Bytes(t, p.absPath) + Resolve.Prefixed(PartOf(t, p.query), "?")
  }

  /** A hierarchical part was read from `p` to `e`. */
  predicate HierRead(t: seq<char>, p: nat, e: nat, before: Parts, after: Parts) {
    && p <= e <= |t| && AllWithin(t, after) && HierPrinted(t, after) == t[p..e]
    && after.scheme == before.scheme && after.fragment == before.fragment
    && after.relPath == before.relPath && after.opaquePart == before.opaquePart
  }

  /** Nothing has been read but perhaps a scheme. */
  predicate Fresh(t: seq<char>, p: Parts) { p == NO_PARTS.(scheme := p.scheme) && Within(t, p.scheme) }

  lemma HostportWithin(t: seq<char>, p: nat, parts: Parts)
    requires p <= |t| && Within(t, parts.port) && Within(t, parts.host)
    ensures var r := Hostport(t, p, parts).parts;
      Within(t, r.port) && Within(t, r.host) && r == parts.(host := r.host, port := r.port)
  {
    hide Hostname, Numbers, Scan;
  }

  lemma AuthorityWithin(t: seq<char>, p: nat, parts: Parts)
    requires p <= |t| && Within(t, parts.port) && Within(t, parts.host)
    ensures var r := Authority(t, p, parts).parts;
      Within(t, r.port) && Within(t, r.host)
      && r == parts.(authority := r.authority, userinfo := r.userinfo, host := r.host, port := r.port)
  {
    var e := Scan(Userinfo, t, p);
    HostportWithin(t, p, parts);
    if Is(t, e, '@') { HostportWithin(t, e + 1, parts.(userinfo := Slice(p, e))); }
    hide Hostport, Scan;
  }

  lemma NetPathPrints(t: seq<char>, p: nat, parts: Parts)
    requires p <= |t| && Fresh(t, parts) && NetPath(t, p, parts).ok
    ensures var r := NetPath(t, p, parts); HierRead(t, p, r.pos, parts, r.parts) && r.parts.query.Unset?
  {
    AuthorityWithin(t, p + 2, parts);
    NetPathIsAdjacent(t, p, parts);
    var r := NetPath(t, p, parts);
    assert r.parts.query.Unset? && AllWithin(t, r.parts) && r.parts.scheme == parts.scheme
      && r.parts.fragment == parts.fragment && r.parts.relPath == parts.relPath
      && r.parts.opaquePart == parts.opaquePart by {
      hide Authority, PathEnd;
    }
    var m := r.parts.authority.hi;
    hide NetPath, Fresh;
    assert Bytes(t, r.parts.absPath) == t[m..r.pos];
    assert "//" + t[p + 2..m] + t[m..r.pos] + [] == t[p..r.pos];
  }

  lemma AbsPathPrints(t: seq<char>, p: nat, parts: Parts)
    requires p <= |t| && Fresh(t, parts) && AbsPath(t, p, parts).ok
    ensures var r := AbsPath(t, p, parts); HierRead(t, p, r.pos, parts, r.parts) && r.parts.query.Unset?
  {
    var e := AbsPath(t, p, parts).pos;
    hide PathEnd;
    assert [] + t[p..e] + [] == t[p..e];
  }

  lemma Glue(t: seq<char>, p: nat, m: nat, e: nat, mark: seq<char>)
    requires p <= m < e <= |t| && mark == [t[m]]
    ensures t[p..m] + mark + t[m + 1..e] == t[p..e] == t[p..m] + (mark + t[m + 1..e])
  {
  }

  lemma HierWithQuery(t: seq<char>, p: Parts, lo: nat, hi: nat)
    requires AllWithin(t, p) && p.query.Unset? && lo <= hi <= |t|
    ensures var q := p.(query := Slice(lo, hi));
      AllWithin(t, q) && HierPrinted(t, q) == HierPrinted(t, p) + ("?" + t[lo..hi])
  {
    hide Bytes;
    var a := Resolve.Prefixed(PartOf(t, p.authority), "//") + Bytes(t, p.absPath);
    assert a + [] == a;
  }

  lemma QueryIs(t: seq<char>, p: nat, n: Parse)
    requires n.ok && p <= n.pos <= |t|
    ensures var r := WithQuery(t, p, n);
      && r.ok && (!Is(t, n.pos, '?') ==> r == n)
      && (Is(t, n.pos, '?') ==> n.pos < r.pos <= |t| && t[n.pos] == '?'
                                && r.parts == n.parts.(query := Slice(n.pos + 1, r.pos)))
  {
    hide Scan;
  }

  lemma QueryPrints(t: seq<char>, p: nat, n: Parse, before: Parts)
    requires n.ok && HierRead(t, p, n.pos, before, n.parts) && n.parts.query.Unset?
    ensures var r := WithQuery(t, p, n); r.ok && HierRead(t, p, r.pos, before, r.parts)
  {
    hide WithQuery, HierPrinted, AllWithin;
    QueryIs(t, p, n);
    var r := WithQuery(t, p, n);
    if Is(t, n.pos, '?') {
      Glue(t, p, n.pos, r.pos, "?");
      HierWithQuery(t, n.parts, n.pos + 1, r.pos);
    }
  }

  /** What a hierarchical part that does not parse leaves behind. */
  lemma HierPrints(t: seq<char>, p: nat, parts: Parts)
    requires p <= |t| && Fresh(t, parts)
    ensures var r := HierPart(t, p, parts);
      && (r.ok ==> HierRead(t, p, r.pos, parts, r.parts) && Is(t, p, '/'))
      && (!r.ok ==> r.parts == parts.(query := r.parts.query) && (Is(t, p, '?') <==> r.parts.query.Slice?))
      && (r.ok <==> NetPath(t, p, parts).ok || AbsPath(t, p, parts).ok)
      && (r.ok ==> RelativeUri(t, p, parts) == r)
  {
    var n := NetPath(t, p, parts);
    var a := AbsPath(t, p, parts);
    assert !n.ok ==> n.parts == parts by { hide Authority, PathEnd; }
    assert !a.ok ==> a.parts == parts && a.pos == p by { hide PathEnd; }
    assert n.ok || a.ok ==> Is(t, p, '/') by { hide Authority, PathEnd; }
    if n.ok {
      NetPathPrints(t, p, parts);
      hide NetPath, AbsPath, Fresh, HierRead, WithQuery;
      QueryPrints(t, p, n, parts);
    } else if a.ok {
      AbsPathPrints(t, p, parts);
      hide NetPath, AbsPath, Fresh, HierRead, WithQuery;
      QueryPrints(t, p, a, parts);
    } else {
      hide NetPath, AbsPath, Scan;
    }
  }

  /** The recomposition of a result without a fragment is what was consumed. */
  predicate Reprinted(t: seq<char>, r: Parse) {
    r.pos <= |t| && AllWithin(t, r.parts) && Printed(t, r.parts) == t[..r.pos] && r.parts.fragment.Unset?
  }

  lemma Regroup(s: seq<char>, a: seq<char>, p: seq<char>, q: seq<char>, f: seq<char>)
    ensures s + a + p + q + f == s + (a + p + q) + f
  {
  }

  lemma PrintedIs(t: seq<char>, p: Parts)
    requires AllWithin(t, p)
    ensures Printed(t, p) ==
            Resolve.Scheme(PartOf(t, p.scheme)) + HierPrinted(t, p) + Resolve.Prefixed(PartOf(t, p.fragment), "#")
  {
    hide Resolve.Scheme, Resolve.Prefixed, PartOf, Bytes;
    Regroup(Resolve.Scheme(PartOf(t, p.scheme)), Resolve.Prefixed(PartOf(t, p.authority), "//"), Bytes(t, p.absPath),
            Resolve.Prefixed(PartOf(t, p.query), "?"), Resolve.Prefixed(PartOf(t, p.fragment), "#"));
  }

  lemma SchemeThenHier(t: seq<char>, s: nat, e: nat, before: Parts, after: Parts)
    requires s < |t| && t[s] == ':' && before == NO_PARTS.(scheme := Slice(0, s))
    requires HierRead(t, s + 1, e, before, after)
    ensures Reprinted(t, Parse(true, e, after))
  {
    PrintedIs(t, after);
    hide HierPrinted, Printed;
    assert t[0..s] + ":" + t[s + 1..e] + [] == t[..e];
  }

  lemma NoSchemeThenHier(t: seq<char>, e: nat, after: Parts)
    requires HierRead(t, 0, e, NO_PARTS, after)
    ensures Reprinted(t, Parse(true, e, after))
  {
    PrintedIs(t, after);
    hide HierPrinted, Printed;
    assert [] + t[0..e] + [] == t[..e];
  }

  lemma SchemeIs(t: seq<char>)
    ensures var s := Scheme(t, 0, NO_PARTS);
      && s.parts == NO_PARTS.(scheme := if s.ok then Slice(0, s.pos) else Unset)
      && s.pos <= |t| && (s.ok ==> Alpha(CharAt(t, 0)))
  {
    hide Scan;
  }

  /** A '?' begins an opaque part. */
  lemma OpaqueIs(t: seq<char>, p: nat, parts: Parts)
    requires p <= |t|
    ensures var o := OpaquePart(t, p, parts);
      && (o.ok ==> o.parts.opaquePart.Slice?) && (!o.ok ==> o.parts == parts && !Is(t, p, '?'))
  {
    hide Scan;
  }

  /** An absolute URI, hierarchical or opaque, or what a failed one leaves behind. */
  lemma AbsolutePrints(t: seq<char>)
    ensures var r := AbsoluteUri(t, 0, NO_PARTS);
      && (r.ok && r.parts.opaquePart.Unset? ==> Reprinted(t, r))
      && (!r.ok ==> Fresh(t, r.parts) && (r.parts.scheme.Slice? ==> Alpha(CharAt(t, 0))))
  {
    var s := Scheme(t, 0, NO_PARTS);
    SchemeIs(t);
    if s.ok && Is(t, s.pos, ':') {
      HierPrints(t, s.pos + 1, s.parts);
      var h := HierPart(t, s.pos + 1, s.parts);
      OpaqueIs(t, s.pos + 1, h.parts);
      hide HierPart, Scheme, OpaquePart, RelativeUri, NetPath, AbsPath, Reprinted, HierRead;
      if h.ok { SchemeThenHier(t, s.pos, h.pos, s.parts, h.parts); }
    } else {
      hide Scheme, HierPart, OpaquePart, Reprinted;
    }
  }

  lemma RelPathIs(t: seq<char>, p: nat, parts: Parts)
    ensures var l := RelPath(t, p, parts);
      (l.ok ==> l.parts.relPath.Slice?) && (!l.ok ==> l.parts == parts) && (Alpha(CharAt(t, p)) ==> l.ok)
  {
    hide PathEnd, Scan;
  }

  /** When there is no path at all, a '#' at the start still follows nothing. */
  lemma NoHier(t: seq<char>, parts: Parts)
    requires Fresh(t, parts) && !NetPath(t, 0, parts).ok && !AbsPath(t, 0, parts).ok
    ensures var l := RelPath(t, 0, parts); var r := RelativeUri(t, 0, parts);
      && (l.ok ==> r.ok && r.parts.relPath == l.parts.relPath)
      && (!l.ok ==> !r.ok && r.pos == 0 && (Is(t, 0, '#') ==> r.parts == l.parts))
  {
    assert NetPath(t, 0, parts).parts == parts && AbsPath(t, 0, parts).parts == parts by { hide Authority, PathEnd; }
    hide NetPath, AbsPath, RelPath, Scan;
  }

  /** A relative reference, when it is not a relative path. */
  lemma RelativePrints(t: seq<char>, parts: Parts)
    requires Fresh(t, parts) && (parts.scheme.Slice? ==> Alpha(CharAt(t, 0)))
    ensures var r := RelativeUri(t, 0, parts);
      && (r.ok && r.parts.relPath.Unset? ==> Reprinted(t, r))
      && (!r.ok && Is(t, 0, '#') ==> r.pos == 0 && r.parts == NO_PARTS)
  {
    HierPrints(t, 0, parts);
    if HierPart(t, 0, parts).ok {
      hide HierPart, RelativeUri, Reprinted, HierRead, NetPath, AbsPath;
      assert parts == NO_PARTS;
      NoSchemeThenHier(t, HierPart(t, 0, parts).pos, HierPart(t, 0, parts).parts);
    } else {
      hide HierPart, RelativeUri, RelPath, NetPath, AbsPath, Reprinted, HierRead;
      RelPathIs(t, 0, parts);
      NoHier(t, parts);
    }
  }

  lemma FragmentPrints(t: seq<char>, r: Parse)
    requires Reprinted(t, r) && Is(t, r.pos, '#')
    ensures var f := Fragment(t, r.pos + 1, r.parts);
      f.pos <= |t| && AllWithin(t, f.parts) && Printed(t, f.parts) == t[..f.pos]
  {
    var f := Fragment(t, r.pos + 1, r.parts);
    hide Scan, HierPrinted, Printed, Resolve.Scheme;
    PrintedIs(t, r.parts);
    PrintedIs(t, f.parts);
    assert HierPrinted(t, f.parts) == HierPrinted(t, r.parts) by { SameHier(t, r.parts, f.parts); }
    Glue(t, 0, r.pos, f.pos, "#");
    var h := Resolve.Scheme(PartOf(t, r.parts.scheme)) + HierPrinted(t, r.parts);
    assert h + [] == h;
    assert t[0..r.pos] == t[..r.pos] && t[0..f.pos] == t[..f.pos];
  }

  lemma SameHier(t: seq<char>, p: Parts, q: Parts)
    requires AllWithin(t, p) && AllWithin(t, q) && q == p.(fragment := q.fragment)
    ensures HierPrinted(t, p) == HierPrinted(t, q)
  {
  }

  /** Whatever text the parser accepts, without an opaque part or a relative
      path, the recomposition of the components it found is exactly the text
      it consumed. */
  lemma ParsedIsReprinted(t: seq<char>)
    requires var r := UriReference(t, 0, NO_PARTS); r.ok && r.parts.opaquePart.Unset? && r.parts.relPath.Unset?
    ensures var r := UriReference(t, 0, NO_PARTS);
      r.pos <= |t| && AllWithin(t, r.parts) && Printed(t, r.parts) == t[..r.pos]
  {
    var a := AbsoluteUri(t, 0, NO_PARTS);
    AbsolutePrints(t);
    if !a.ok { RelativePrints(t, a.parts); }
    var r := if a.ok then a else RelativeUri(t, 0, a.parts);
    assert Is(t, r.pos, '#') ==> UriReference(t, 0, NO_PARTS) == Fragment(t, r.pos + 1, r.parts);
    hide AbsoluteUri, RelativeUri, Scan, Printed, AllWithin;
    if Is(t, r.pos, '#') {
      if !r.ok {
        NothingPrints(t);
      }
      FragmentPrints(t, r);
    }
  }

  lemma NothingPrints(t: seq<char>)
    ensures Reprinted(t, Parse(false, 0, NO_PARTS))
  {
  }

  // ----------------------------------------- relative paths and opaque parts

  /** Query and fragment behind what was read up to `e`. */
  predicate TailRead(t: seq<char>, e: nat, r: Parse) {
    && e <= r.pos <= |t| && Within(t, r.parts.query) && Within(t, r.parts.fragment)
    && Resolve.Prefixed(PartOf(t, r.parts.query), "?") + Resolve.Prefixed(PartOf(t, r.parts.fragment), "#")
       == t[e..r.pos]
  }

  lemma TailQuery(t: seq<char>, p: nat, r: Parse)
    requires r.ok && p <= r.pos <= |t| && r.parts.query.Unset? && r.parts.fragment.Unset?
    ensures var w := WithQuery(t, p, r);
      && w.ok && TailRead(t, r.pos, w) && w.parts.fragment.Unset? && w.parts == r.parts.(query := w.parts.query)
  {
    hide Scan;
    var w := WithQuery(t, p, r);
    if Is(t, r.pos, '?') {
      assert "?" + t[r.pos + 1..w.pos] + [] == t[r.pos..w.pos];
    }
  }

  lemma FragmentIs(t: seq<char>, r: Parse)
    requires Is(t, r.pos, '#')
    ensures var f := Fragment(t, r.pos + 1, r.parts);
      r.pos < f.pos <= |t| && t[r.pos] == '#' && f.parts == r.parts.(fragment := Slice(r.pos + 1, f.pos))
  {
    hide Scan;
  }

  lemma TailFragment(t: seq<char>, e: nat, r: Parse)
    requires TailRead(t, e, r) && r.parts.fragment.Unset? && Is(t, r.pos, '#')
    ensures var f := Fragment(t, r.pos + 1, r.parts);
      TailRead(t, e, f) && f.parts == r.parts.(fragment := f.parts.fragment)
  {
    FragmentIs(t, r);
    hide Fragment;
    var f := Fragment(t, r.pos + 1, r.parts);
    var q := Resolve.Prefixed(PartOf(t, r.parts.query), "?");
    assert q + [] == q == t[e..r.pos];
    Glue(t, e, r.pos, f.pos, "#");
  }

  /** A relative path, and where its absolute path part begins. */
  lemma RelPathRead(t: seq<char>, parts: Parts)
    requires Fresh(t, parts) && RelPath(t, 0, parts).ok
    ensures var l := RelPath(t, 0, parts); var q := l.parts.absPath;
      && l.pos <= |t| && l.parts == parts.(relPath := Slice(0, l.pos), absPath := q)
      && (q.Slice? ==> 0 < q.lo < q.hi == l.pos && t[q.lo] == '/')
  {
    hide PathEnd, Starts, Step;
    assert Scan(RelSegment, t, 0) > 0;
  }

  /** What the parser holds of a relative path reference. */
  lemma RelativeRead(t: seq<char>, parts: Parts)
    requires Fresh(t, parts) && RelativeUri(t, 0, parts).ok && RelativeUri(t, 0, parts).parts.relPath.Slice?
    ensures var r := RelativeUri(t, 0, parts); var l := RelPath(t, 0, parts);
      && l.ok && r == WithQuery(t, 0, l) && !Is(t, 0, '/')
  {
    var n, a := NetPath(t, 0, parts), AbsPath(t, 0, parts);
    HierPrints(t, 0, parts);
    assert n.ok || a.ok <==> Is(t, 0, '/') by { SlashIsHier(t, parts); }
    assert !Is(t, 0, '/') ==> n.parts == parts && a.parts == parts by { hide Authority, PathEnd; }
    hide NetPath, AbsPath, RelPath, HierRead;
  }

  lemma SlashIsHier(t: seq<char>, parts: Parts)
    ensures NetPath(t, 0, parts).ok || AbsPath(t, 0, parts).ok <==> Is(t, 0, '/')
  {
    hide Authority, PathEnd;
  }

  lemma ReferenceIs(t: seq<char>)
    ensures var a := AbsoluteUri(t, 0, NO_PARTS); var b := if a.ok then a else RelativeUri(t, 0, a.parts);
      UriReference(t, 0, NO_PARTS) ==
      if Is(t, b.pos, '#') then Fragment(t, b.pos + 1, b.parts) else if b.ok then b else Parse(false, 0, b.parts)
  {
    hide AbsoluteUri, RelativeUri, Fragment;
  }

  /** The parts of a relative path reference. */
  predicate RelativeFound(t: seq<char>, p: Parts) {
    && p.relPath.Slice? && p.relPath.lo == 0 <= p.relPath.hi <= |t|
    && p.authority.Unset? && p.netPath.Unset? && p.host.Unset?
    && (p.absPath.Slice? ==> 0 < p.absPath.lo < p.absPath.hi == p.relPath.hi && t[p.absPath.lo] == '/')
  }

  lemma RelativeParts(t: seq<char>, parts: Parts)
    requires Fresh(t, parts) && RelativeUri(t, 0, parts).ok && RelativeUri(t, 0, parts).parts.relPath.Slice?
    ensures var r := RelativeUri(t, 0, parts);
      RelativeFound(t, r.parts) && TailRead(t, r.parts.relPath.hi, r) && r.parts.fragment.Unset?
  {
    RelativeRead(t, parts);
    RelPathRead(t, parts);
    FreshIs(t, parts);
    hide RelativeUri, RelPath, WithQuery, Fresh, TailRead;
    TailQuery(t, 0, RelPath(t, 0, parts));
  }

  lemma RelativeKept(t: seq<char>, p: Parts, q: Parts)
    requires RelativeFound(t, p) && q == p.(fragment := q.fragment)
    ensures RelativeFound(t, q) && q.relPath == p.relPath
  {
  }

  /** Of every relative path reference the parser accepts, relative path, query
      and fragment are exactly the text it consumed; an absolute path is found
      only as the end of the relative one. */
  lemma RelativeIsReprinted(t: seq<char>)
    requires var r := UriReference(t, 0, NO_PARTS); r.ok && r.parts.opaquePart.Unset? && r.parts.relPath.Slice?
    ensures var r := UriReference(t, 0, NO_PARTS); var p := r.parts;
      && RelativeFound(t, p) && p.relPath.hi <= r.pos <= |t| && Within(t, p.query) && Within(t, p.fragment)
      && Bytes(t, p.relPath)
         + (Resolve.Prefixed(PartOf(t, p.query), "?") + Resolve.Prefixed(PartOf(t, p.fragment), "#")) == t[..r.pos]
  {
    ReferenceIs(t);
    AbsolutePrints(t);
    AbsoluteHasNoRelPath(t);
    hide AbsoluteUri, RelativeUri, UriReference, Fresh, TailRead, RelativeFound, Reprinted;
    var a := AbsoluteUri(t, 0, NO_PARTS);
    if !a.ok { RelativeIsOk(t, a.parts); }
    var b, r := if a.ok then a else RelativeUri(t, 0, a.parts), UriReference(t, 0, NO_PARTS);
    assert b.parts.relPath.Slice?;
    RelativeParts(t, a.parts);
    var e := b.parts.relPath.hi;
    if Is(t, b.pos, '#') {
      TailFragment(t, e, b);
      RelativeKept(t, b.parts, r.parts);
    }
    TailText(t, e, r);
  }

  lemma TailText(t: seq<char>, e: nat, r: Parse)
    requires TailRead(t, e, r) && RelativeFound(t, r.parts) && r.parts.relPath.hi == e
    ensures e <= r.pos <= |t| && Within(t, r.parts.query) && Within(t, r.parts.fragment) && Within(t, r.parts.relPath)
    ensures Bytes(t, r.parts.relPath)
            + (Resolve.Prefixed(PartOf(t, r.parts.query), "?") + Resolve.Prefixed(PartOf(t, r.parts.fragment), "#"))
            == t[..r.pos]
  {
    hide Resolve.Prefixed, PartOf;
    TwoParts(t, e, r.pos);
  }

  lemma TwoParts(t: seq<char>, e: nat, n: nat)
    requires e <= n <= |t|
    ensures t[0..e] + t[e..n] == t[..n]
  {
  }

  lemma FreshIs(t: seq<char>, p: Parts)
    requires Fresh(t, p)
    ensures p == NO_PARTS.(scheme := p.scheme)
  {
  }

  lemma AbsoluteHasNoRelPath(t: seq<char>)
    ensures AbsoluteUri(t, 0, NO_PARTS).ok ==> AbsoluteUri(t, 0, NO_PARTS).parts.relPath.Unset?
  {
    var s := Scheme(t, 0, NO_PARTS);
    SchemeIs(t);
    if s.ok && Is(t, s.pos, ':') {
      HierPrints(t, s.pos + 1, s.parts);
      hide HierPart, Scheme, Scan;
    } else {
      hide Scheme, HierPart;
    }
  }

  lemma RelativeIsOk(t: seq<char>, parts: Parts)
    requires Fresh(t, parts)
    ensures RelativeUri(t, 0, parts).parts.relPath.Slice? ==> RelativeUri(t, 0, parts).ok
  {
    HierPrints(t, 0, parts);
    RelPathIs(t, 0, parts);
    assert !NetPath(t, 0, parts).ok ==> NetPath(t, 0, parts).parts == parts by { hide Authority, PathEnd; }
    assert !AbsPath(t, 0, parts).ok ==> AbsPath(t, 0, parts).parts == parts by { hide PathEnd; }
    hide NetPath, AbsPath, RelPath, Scan;
  }

  /** Of every opaque URI the parser accepts, scheme, opaque part and fragment
      are exactly the text it consumed. */
  lemma OpaqueIsReprinted(t: seq<char>)
    requires var r := UriReference(t, 0, NO_PARTS); r.ok && r.parts.opaquePart.Slice?
    ensures var r := UriReference(t, 0, NO_PARTS); var p := r.parts;
      && r.pos <= |t| && Within(t, p.scheme) && Within(t, p.opaquePart) && Within(t, p.fragment)
      && p.scheme.Slice? && p.opaquePart.lo < p.opaquePart.hi && t[p.opaquePart.lo] != '/'
      && Bytes(t, p.scheme) + ":" + Bytes(t, p.opaquePart) + Resolve.Prefixed(PartOf(t, p.fragment), "#") == t[..r.pos]
      && p.authority.Unset? && p.absPath.Unset? && p.relPath.Unset?
      && (p.query.Slice? <==> t[p.opaquePart.lo] == '?')
  {
    ReferenceIs(t);
    AbsolutePrints(t);
    hide RelativeUri, UriReference, Fresh, AbsoluteUri, Reprinted, OpaqueFound;
    var a := AbsoluteUri(t, 0, NO_PARTS);
    if !a.ok { RelativeHasNoOpaque(t, a.parts); }
    assert a.ok && a.parts.opaquePart.Slice?;
    OpaqueRead(t);
    if Is(t, a.pos, '#') { OpaqueFragment(t, a); }
    OpaqueText(t, a, UriReference(t, 0, NO_PARTS));
  }

  lemma OpaqueText(t: seq<char>, a: Parse, r: Parse)
    requires OpaqueFound(t, a)
    requires r == a || (Is(t, a.pos, '#') && a.pos < r.pos <= |t|
                        && r.parts == a.parts.(fragment := Slice(a.pos + 1, r.pos)))
    ensures var p := r.parts;
      && r.pos <= |t| && Within(t, p.scheme) && Within(t, p.opaquePart) && Within(t, p.fragment)
      && p.scheme.Slice? && p.opaquePart.Slice? && p.opaquePart.lo < p.opaquePart.hi && t[p.opaquePart.lo] != '/'
      && Bytes(t, p.scheme) + ":" + Bytes(t, p.opaquePart) + Resolve.Prefixed(PartOf(t, p.fragment), "#") == t[..r.pos]
      && p.authority.Unset? && p.absPath.Unset? && p.relPath.Unset?
      && (p.query.Slice? <==> t[p.opaquePart.lo] == '?')
  {
    var c := a.parts.scheme.hi;
    assert t[0..c] + ":" + t[c + 1..a.pos] == t[..a.pos];
    if r == a {
      assert t[..a.pos] + [] == t[..a.pos];
    } else {
      assert t[..a.pos] + ("#" + t[a.pos + 1..r.pos]) == t[..r.pos];
    }
  }

  lemma RelativeHasNoOpaque(t: seq<char>, parts: Parts)
    requires Fresh(t, parts)
    ensures RelativeUri(t, 0, parts).parts.opaquePart.Unset?
  {
    HierPrints(t, 0, parts);
    assert !NetPath(t, 0, parts).ok ==> NetPath(t, 0, parts).parts == parts by { hide Authority, PathEnd; }
    assert !AbsPath(t, 0, parts).ok ==> AbsPath(t, 0, parts).parts == parts by { hide PathEnd; }
    assert RelPath(t, 0, parts).parts.opaquePart.Unset? by { hide PathEnd, Scan; }
    hide NetPath, AbsPath, RelPath, Scan, HierPart;
  }

  /** What the parser holds of an opaque URI in front of a fragment. */
  predicate OpaqueFound(t: seq<char>, r: Parse) {
    var p := r.parts;
    && r.pos <= |t| && p.scheme.Slice? && p.scheme.lo == 0 && p.scheme.hi < |t| && t[p.scheme.hi] == ':'
    && p.opaquePart == Slice(p.scheme.hi + 1, r.pos) && p.scheme.hi + 1 < r.pos && t[p.scheme.hi + 1] != '/'
    && p == NO_PARTS.(scheme := p.scheme, opaquePart := p.opaquePart, query := p.query)
    && (p.query.Slice? <==> t[p.scheme.hi + 1] == '?')
  }

  lemma OpaqueRead(t: seq<char>)
    requires var a := AbsoluteUri(t, 0, NO_PARTS); a.ok && a.parts.opaquePart.Slice?
    ensures OpaqueFound(t, AbsoluteUri(t, 0, NO_PARTS))
  {
    var s := Scheme(t, 0, NO_PARTS);
    SchemeIs(t);
    HierPrints(t, s.pos + 1, s.parts);
    var h := HierPart(t, s.pos + 1, s.parts);
    OpaqueStart(t, s.pos + 1, h.parts);
    hide HierPart, Scheme, OpaquePart, RelativeUri, NetPath, AbsPath, HierRead;
  }

  lemma OpaqueStart(t: seq<char>, p: nat, parts: Parts)
    requires p <= |t|
    ensures var o := OpaquePart(t, p, parts);
      o.ok ==> p < o.pos <= |t| && o.parts == parts.(opaquePart := Slice(p, o.pos)) && t[p] != '/'
  {
    hide Scan;
  }

  lemma OpaqueFragment(t: seq<char>, r: Parse)
    requires OpaqueFound(t, r) && Is(t, r.pos, '#')
    ensures var f := Fragment(t, r.pos + 1, r.parts);
      && r.pos < f.pos <= |t| && f.parts == r.parts.(fragment := Slice(r.pos + 1, f.pos))
  {
    FragmentIs(t, r);
  }
}
