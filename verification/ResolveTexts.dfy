/** From the text of a reference to the resolved text: what resolution answers
    for every text, by how the text starts (section 5.2 of RFC 2396). */
module ResolveTexts {
  import opened Options
  import opened Cursor
  import opened Segments
  import opened DotSegments
  import opened UriGrammar
  import opened UriScan
  import opened UriRoundTrip
  import opened UriReprint
  import Resolve

  /** The components the parser hands to the resolution. */
  function FieldsOf(t: seq<char>, p: Parts): Resolve.Fields
    requires AllWithin(t, p) && Within(t, p.relPath) && Within(t, p.opaquePart)
  {
    Resolve.Fields(PartOf(t, p.scheme), PartOf(t, p.authority), PartOf(t, p.netPath), PartOf(t, p.absPath),
                   PartOf(t, p.relPath), PartOf(t, p.opaquePart), PartOf(t, p.query), PartOf(t, p.fragment))
  }

  /** Scheme and ':' of the base, when it has one. */
  function SchemeText(base: Resolve.Fields): seq<char> {
    if base.scheme.isInit then Resolve.Copied(base.scheme) + [':'] else []
  }

  /** "//" and authority of the base, when it has one. */
  function AuthorityText(base: Resolve.Fields): seq<char> {
    if base.authority.isInit then ['/', '/'] + Resolve.Copied(base.authority) else []
  }

  // ------------------------------------------------------ what a text is parsed as

  lemma SlashFirst(t: seq<char>)
    requires t != [] && t[0] == '/'
    ensures var r := RelativeUri(t, 0, NO_PARTS);
      && r.ok && r.pos <= |t| && r.parts.scheme.Unset? && r.parts.relPath.Unset? && r.parts.opaquePart.Unset?
      && r.parts.fragment.Unset? && Reprinted(t, r)
      && (if |t| > 1 && t[1] == '/' then r.parts.authority.Slice? && r.parts.netPath.Slice?
          else r.parts.authority.Unset? && r.parts.absPath.Slice?)
    ensures !AbsoluteUri(t, 0, NO_PARTS).ok && AbsoluteUri(t, 0, NO_PARTS).parts == NO_PARTS
  {
    assert !Alpha('/');
    HierPrints(t, 0, NO_PARTS);
    RelativePrints(t, NO_PARTS);
    Kinds(t);
    hide NetPath, AbsPath, HierRead, Reprinted, HierPart, RelativeUri;
    KindOfHier(t);
  }

  /** A text that starts with a '/' is a network path or an absolute path. */
  lemma Kinds(t: seq<char>)
    requires t != [] && t[0] == '/'
    ensures var n, a := NetPath(t, 0, NO_PARTS), AbsPath(t, 0, NO_PARTS);
      && (n.ok <==> |t| > 1 && t[1] == '/')
      && (n.ok ==> n.parts.authority.Slice? && n.parts.netPath.Slice? && n.pos <= |t|)
      && (!n.ok ==> n.parts == NO_PARTS)
      && a.ok && a.pos <= |t| && a.parts == NO_PARTS.(absPath := Slice(0, a.pos))
  {
    hide PathEnd;
    if Is(t, 1, '/') { AuthorityWithin(t, 2, NO_PARTS); }
    hide Authority;
  }

  lemma KindOfHier(t: seq<char>)
    requires t != [] && t[0] == '/'
    ensures var r := RelativeUri(t, 0, NO_PARTS); var n := NetPath(t, 0, NO_PARTS);
      r.parts == (if n.ok then n.parts else AbsPath(t, 0, NO_PARTS).parts).(query := r.parts.query)
  {
    Kinds(t);
    hide NetPath, AbsPath, Query;
    var n := NetPath(t, 0, NO_PARTS);
    if n.ok { NetPathKeepsQuery(t); }
  }

  lemma NetPathKeepsQuery(t: seq<char>)
    ensures NetPath(t, 0, NO_PARTS).parts.query.Unset?
  {
    hide Authority, PathEnd;
    AuthorityWithinAll(t);
  }

  lemma AuthorityWithinAll(t: seq<char>)
    ensures Authority(t, 2, NO_PARTS).parts.query.Unset?
  {
    hide Hostname, Numbers, Scan;
  }

  /** The whole reference: what was read without its fragment, and the fragment. */
  lemma SlashReference(t: seq<char>)
    requires t != [] && t[0] == '/'
    ensures var r := UriReference(t, 0, NO_PARTS); var p := r.parts;
      && r.ok && r.pos <= |t| && AllWithin(t, p) && Printed(t, p) == t[..r.pos]
      && p.scheme.Unset? && p.relPath.Unset? && p.opaquePart.Unset?
      && (if |t| > 1 && t[1] == '/' then p.authority.Slice? && p.netPath.Slice?
          else p.authority.Unset? && p.absPath.Slice?)
  {
    ReferenceIs(t);
    SlashFirst(t);
    hide AbsoluteUri, RelativeUri, Reprinted, Fragment, Printed, AllWithin;
    var b := RelativeUri(t, 0, NO_PARTS);
    if Is(t, b.pos, '#') { FragmentIs(t, b); }
    ParsedIsReprinted(t);
  }

  // ------------------------------------------------------------------- answers

  lemma Pieces(s: seq<char>, a: seq<char>, p: seq<char>, q: seq<char>, f: seq<char>)
    ensures s + a + p + q + f == s + ([] + a + p + q + f) == s + a + ([] + [] + p + q + f)
  {
  }

  /** Putting another scheme, or scheme and authority, in front. */
  lemma InFront(scheme: Resolve.Part, a: Resolve.Part, path: seq<char>, q: Resolve.Part, f: Resolve.Part)
    ensures Resolve.Recomposed(scheme, a, path, q, f) ==
            Resolve.Scheme(scheme) + Resolve.Recomposed(Resolve.UNSET, a, path, q, f)
    ensures Resolve.Recomposed(scheme, a, path, q, f) ==
            Resolve.Scheme(scheme) + Resolve.Prefixed(a, "//")
            + Resolve.Recomposed(Resolve.UNSET, Resolve.UNSET, path, q, f)
  {
    hide Resolve.Copied;
    Pieces(Resolve.Scheme(scheme), Resolve.Prefixed(a, "//"), path, Resolve.Prefixed(q, "?"), Resolve.Prefixed(f, "#"));
  }

  lemma BaseTexts(base: Resolve.Fields)
    ensures Resolve.Scheme(base.scheme) == SchemeText(base)
    ensures Resolve.Prefixed(base.authority, "//") == AuthorityText(base)
  {
  }

  lemma CopiedSlice(t: seq<char>, s: Slice)
    requires Within(t, s)
    ensures Resolve.Copied(PartOf(t, s)) == Bytes(t, s) && PartOf(t, s).isInit == s.Slice?
  {
  }

  /** Every reference that starts with "//" becomes the base scheme, ':' and the
      reference as far as it was read. */
  lemma NetworkReference(base: Resolve.Fields, t: seq<char>)
    requires |t| > 1 && t[0] == '/' && t[1] == '/'
    ensures var r := UriReference(t, 0, NO_PARTS);
      && r.ok && r.pos <= |t| && AllWithin(t, r.parts) && r.parts.relPath.Unset? && r.parts.opaquePart.Unset?
      && Resolve.Answered(base, FieldsOf(t, r.parts)) ==
         Resolve.Answer(Resolve.RESOLVED, SchemeText(base) + t[..r.pos])
  {
    SlashReference(t);
    var p := UriReference(t, 0, NO_PARTS).parts;
    hide UriReference, Resolve.Recomposed, Resolve.Copied, Resolve.Scheme, Resolve.Prefixed, Bytes, PartOf, SchemeText;
    AnswerOwnPath(base, t, p);
    InFront(base.scheme, PartOf(t, p.authority), Bytes(t, p.absPath), PartOf(t, p.query), PartOf(t, p.fragment));
    BaseTexts(base);
  }

  /** Every reference that starts with '/' but not with "//" becomes the base
      scheme and authority and the reference as far as it was read. */
  lemma PathReference(base: Resolve.Fields, t: seq<char>)
    requires t != [] && t[0] == '/' && (|t| > 1 ==> t[1] != '/')
    ensures var r := UriReference(t, 0, NO_PARTS);
      && r.ok && r.pos <= |t| && AllWithin(t, r.parts) && r.parts.relPath.Unset? && r.parts.opaquePart.Unset?
      && Resolve.Answered(base, FieldsOf(t, r.parts)) ==
         Resolve.Answer(Resolve.RESOLVED, SchemeText(base) + AuthorityText(base) + t[..r.pos])
  {
    SlashReference(t);
    var p := UriReference(t, 0, NO_PARTS).parts;
    hide UriReference, Resolve.Recomposed, Resolve.Copied, Resolve.Scheme, Resolve.Prefixed, Bytes, PartOf, SchemeText,
      AuthorityText;
    AnswerOwnPath(base, t, p);
    InFront(base.scheme, base.authority, Bytes(t, p.absPath), PartOf(t, p.query), PartOf(t, p.fragment));
    UnsetPart(t, p.authority);
    BaseTexts(base);
  }

  lemma UnsetPart(t: seq<char>, s: Slice)
    requires s.Unset?
    ensures PartOf(t, s) == Resolve.UNSET
  {
  }

  /** A reference without a scheme that has an authority, or an absolute path
      only. */
  lemma AnswerOwnPath(base: Resolve.Fields, t: seq<char>, p: Parts)
    requires AllWithin(t, p) && p.scheme.Unset? && p.relPath.Unset? && p.opaquePart.Unset?
    requires p.authority.Slice? || p.absPath.Slice?
    ensures var a := if p.authority.Slice? then PartOf(t, p.authority) else base.authority;
      Resolve.Answered(base, FieldsOf(t, p)) ==
      Resolve.Answer(Resolve.RESOLVED,
                     Resolve.Recomposed(base.scheme, a, Bytes(t, p.absPath), PartOf(t, p.query), PartOf(t, p.fragment)))
    ensures Printed(t, p) ==
            Resolve.Recomposed(Resolve.UNSET, PartOf(t, p.authority), Bytes(t, p.absPath), PartOf(t, p.query),
                               PartOf(t, p.fragment))
  {
    CopiedSlice(t, p.absPath);
    CopiedSlice(t, p.authority);
    CopiedSlice(t, p.scheme);
    hide Resolve.Recomposed, Resolve.Copied, Resolve.Merged, Resolve.WrittenSegments, Resolve.WrittenPath, Bytes;
  }

  /** A reference with a scheme is left alone; the empty one and a fragment are
      the current document. */
  lemma AbsoluteReference(base: Resolve.Fields, t: seq<char>, p: Parts)
    requires AllWithin(t, p) && Within(t, p.relPath) && Within(t, p.opaquePart) && p.scheme.Slice?
    ensures Resolve.Answered(base, FieldsOf(t, p)).status == Resolve.IS_ABSOLUTE_URI == 3
  {
    hide Resolve.Recomposed, Resolve.Merged, Resolve.WrittenSegments;
  }

  lemma EmptyReference(base: Resolve.Fields, t: seq<char>)
    requires t == [] || t[0] == '#'
    ensures var r := UriReference(t, 0, NO_PARTS);
      && r.parts == NO_PARTS.(fragment := r.parts.fragment) && Within(t, r.parts.fragment) && (r.ok <==> t != [])
      && Resolve.Answered(base, FieldsOf(t, r.parts)).status == Resolve.IS_CURRENT_DOCUMENT == 2
  {
    NothingThere(t);
    ReferenceIs(t);
    var b := RelativeUri(t, 0, NO_PARTS);
    hide AbsoluteUri, RelativeUri, UriReference, Fragment, Resolve.Recomposed, Resolve.Merged, Resolve.WrittenSegments;
    if Is(t, 0, '#') { FragmentIs(t, b); }
  }

  lemma NothingThere(t: seq<char>)
    requires t == [] || t[0] == '#'
    ensures AbsoluteUri(t, 0, NO_PARTS) == Parse(false, 0, NO_PARTS) == RelativeUri(t, 0, NO_PARTS)
  {
    assert !Starts(RelSegment, t, 0);
    hide Authority, PathEnd, Scan;
  }

  /** A reference that is a query only is no reference to the parser, although
      section 5.2 of RFC 2396 allows it; the query stays set. */
  lemma QueryIsRefused(t: seq<char>)
    requires t != [] && t[0] == '?'
    ensures var r := UriReference(t, 0, NO_PARTS); !r.ok && r.pos == 0
    ensures var p := UriReference(t, 0, NO_PARTS).parts; p.query.Slice? && p == NO_PARTS.(query := p.query)
    ensures UriReference(t, 0, NO_PARTS).parts.query.lo == 1
  {
    assert !Starts(RelSegment, t, 0);
    hide Authority, PathEnd, Scan;
  }

  /** Resolved all the same, it is put behind the directory of the base, which
      loses its last byte when it has no "." and ".." segments. */
  lemma QueryReference(base: Resolve.Fields, query: Resolve.Part, segs: seq<Segment>)
    requires query.isInit && segs != [] && Plain(segs) && DOT !in segs && DOTDOT !in segs
    requires Resolve.BaseDirectory(base.absPath) == Join(segs)
    ensures var u := Resolve.UNSET; var dir := Join(segs);
      Resolve.Answered(base, Resolve.Fields(u, u, u, u, u, u, query, u)) ==
      Resolve.Answer(Resolve.RESOLVED, SchemeText(base) + AuthorityText(base)
                                       + (if dir == [] then [] else dir[..|dir| - 1]) + (['?'] + Resolve.Copied(query)))
  {
    var u, dir := Resolve.UNSET, Join(segs);
    assert dir + [] == dir;
    Resolve.PlainPathIsCutShort(segs);
    assert Resolve.WrittenSegments(dir) == segs by { Resolve.PlainStays(segs); }
    BaseTexts(base);
    hide Resolve.WrittenPath, Resolve.BaseDirectory, Resolve.WrittenSegments, Join, Resolve.Copied, SchemeText,
      AuthorityText, Resolve.Scheme;
    assert Resolve.Merged(base.absPath, u) == dir;
    var path := Resolve.Copied(Resolve.WrittenPath(dir));
    assert Resolve.Recomposed(base.scheme, base.authority, path, query, u) ==
           SchemeText(base) + AuthorityText(base) + path + (['?'] + Resolve.Copied(query)) + [];
  }

  // ------------------------------------------------------------ relative paths

  /** The directory of a path ends in its last '/', or is empty when it has none. */
  lemma {:induction false} DirectoryIsLast(path: seq<char>)
    ensures var d := Resolve.Directory(path);
      && d <= path && (d != [] ==> d[|d| - 1] == '/')
      && forall k :: |d| <= k < |path| ==> path[k] != '/'
  {
    if path != [] && path[|path| - 1] != '/' { DirectoryIsLast(path[..|path| - 1]); }
  }

  lemma RelativeFields(t: seq<char>, p: Parts, hi: nat)
    requires RelativeFound(t, p) && Within(t, p.query) && Within(t, p.fragment)
    requires p.scheme.Unset? && p.opaquePart.Unset? && p.userinfo.Unset? && p.port.Unset?
    ensures AllWithin(t, p) && Within(t, p.relPath)
    ensures var f := FieldsOf(t, p);
      && !f.scheme.isInit && !f.authority.isInit && !f.opaquePart.isInit && f.relPath.isInit
      && Resolve.Copied(f.relPath) == Bytes(t, p.relPath) && f.query == PartOf(t, p.query)
      && f.fragment == PartOf(t, p.fragment)
  {
  }

  lemma AnswerMerged(base: Resolve.Fields, f: Resolve.Fields)
    requires !f.scheme.isInit && !f.authority.isInit && !f.opaquePart.isInit && f.relPath.isInit
    ensures var merged := Resolve.BaseDirectory(base.absPath) + Resolve.Copied(f.relPath);
      Resolve.Answered(base, f) ==
      if DOTDOT in Resolve.WrittenSegments(merged) then Resolve.Answer(Resolve.NOT_RESOLVED, [])
      else Resolve.Answer(Resolve.RESOLVED,
                          Resolve.Recomposed(base.scheme, base.authority, Resolve.Copied(Resolve.WrittenPath(merged)),
                                             f.query, f.fragment))
  {
    hide Resolve.Recomposed, Resolve.Copied, Resolve.WrittenSegments, Resolve.WrittenPath, Resolve.BaseDirectory;
  }

  lemma FourPieces(s: seq<char>, a: seq<char>, p: seq<char>, q: seq<char>, f: seq<char>)
    ensures s + a + p + q + f == s + a + p + (q + f)
  {
  }

  /** Every relative path reference is put behind the directory of the base path
      and rewritten; query and fragment stay. */
  lemma RelativeReference(base: Resolve.Fields, t: seq<char>)
    requires var r := UriReference(t, 0, NO_PARTS);
      r.ok && r.parts.scheme.Unset? && r.parts.opaquePart.Unset? && r.parts.relPath.Slice?
    ensures var r := UriReference(t, 0, NO_PARTS); var e := r.parts.relPath.hi;
      && r.parts.relPath.lo == 0 && e <= r.pos <= |t| && AllWithin(t, r.parts)
      && var merged := Resolve.BaseDirectory(base.absPath) + t[..e];
        Resolve.Answered(base, FieldsOf(t, r.parts)) ==
        if DOTDOT in Resolve.WrittenSegments(merged) then Resolve.Answer(Resolve.NOT_RESOLVED, [])
        else Resolve.Answer(Resolve.RESOLVED, SchemeText(base) + AuthorityText(base)
                                              + Resolve.Copied(Resolve.WrittenPath(merged)) + t[e..r.pos])
  {
    RelativeIsReprinted(t);
    RelativeHasNoPort(t);
    var r := UriReference(t, 0, NO_PARTS);
    var p, e := r.parts, r.parts.relPath.hi;
    RelativeFields(t, p, e);
    RelativeStart(t, p);
    var q, f := Resolve.Prefixed(PartOf(t, p.query), "?"), Resolve.Prefixed(PartOf(t, p.fragment), "#");
    TailIs(t, e, r.pos, Bytes(t, p.relPath), q + f);
    hide UriReference, RelativeFound, Resolve.Copied, Resolve.WrittenPath, Resolve.WrittenSegments,
      Resolve.BaseDirectory, Resolve.Answered, FieldsOf, Bytes, AllWithin, PartOf, Resolve.Scheme, Resolve.Prefixed,
      SchemeText, AuthorityText;
    AnswerMerged(base, FieldsOf(t, p));
    BaseTexts(base);
    var merged := Resolve.BaseDirectory(base.absPath) + t[..e];
    FourPieces(SchemeText(base), AuthorityText(base), Resolve.Copied(Resolve.WrittenPath(merged)), q, f);
  }

  lemma RelativeStart(t: seq<char>, p: Parts)
    requires RelativeFound(t, p)
    ensures p.relPath.lo == 0 && p.relPath.hi <= |t| && Bytes(t, p.relPath) == t[..p.relPath.hi]
  {
  }

  lemma TailIs(t: seq<char>, e: nat, n: nat, a: seq<char>, b: seq<char>)
    requires e <= n <= |t| && a == t[..e] && a + b == t[..n]
    ensures b == t[e..n]
  {
    assert t[..n] == t[..e] + t[e..n];
    assert |b| == n - e;
    assert b == (a + b)[|a|..];
  }

  lemma RelativeHasNoPort(t: seq<char>)
    requires var r := UriReference(t, 0, NO_PARTS); r.ok && r.parts.opaquePart.Unset? && r.parts.relPath.Slice?
    ensures var p := UriReference(t, 0, NO_PARTS).parts; p.userinfo.Unset? && p.port.Unset?
  {
    ReferenceIs(t);
    AbsolutePrints(t);
    AbsoluteHasNoRelPath(t);
    hide AbsoluteUri, RelativeUri, UriReference, Fresh, Reprinted;
    var a := AbsoluteUri(t, 0, NO_PARTS);
    assert !a.ok;
    var b := RelativeUri(t, 0, a.parts);
    if Is(t, b.pos, '#') { FragmentIs(t, b); }
    RelativeIsOk(t, a.parts);
    RelativeRead(t, a.parts);
    RelPathRead(t, a.parts);
    FreshIs(t, a.parts);
    hide RelPath, WithQuery;
    QueryIs(t, 0, RelPath(t, 0, a.parts));
  }

  /** "g" behind the base path "/b/c" gives the merged path "/b/g", of which the
      code leaves "/b/". */
  lemma RelativeInput(base: Resolve.Fields)
    requires base.absPath == Resolve.Part("/b/c", true, false)
    ensures var merged := Resolve.BaseDirectory(base.absPath) + "g";
      && merged == "/b/g" && DOTDOT !in Resolve.WrittenSegments(merged)
      && Resolve.Copied(Resolve.WrittenPath(merged)) == "/b/"
  {
    var path := "/b/c";
    DirectoryOf();
    var segs: seq<Segment> := ["", "b", "g"];
    JoinOf();
    hide Join, Resolve.WrittenPath, Resolve.WrittenSegments, Resolve.Copied, Resolve.Directory;
    Resolve.PlainPathIsCutShort(segs);
    Resolve.PlainStays(segs);
    assert "/b/g"[..3] == "/b/";
  }

  lemma DirectoryOf()
    ensures Resolve.Directory("/b/c") == "/b/"
  {
    assert "/b/c"[..3] == "/b/";
    assert Resolve.Directory("/b/") == "/b/";
  }

  lemma JoinOf()
    ensures Join(["", "b", "g"]) == "/b/g"
  {
    JoinOne("g");
    JoinCons("b", ["g"]);
    JoinCons("", ["b"] + ["g"]);
    assert [""] + (["b"] + ["g"]) == ["", "b", "g"];
  }

  // --------------------------------------------------------- from text to text

  /** A path of characters of a path is read to its end. */
  lemma PathIsRead(w: seq<char>)
    requires w != [] && w[0] == '/' && (|w| > 1 ==> w[1] != '/') && forall k :: 0 <= k < |w| ==> In(PathChar, w[k])
    ensures UriReference(w, 0, NO_PARTS).ok && UriReference(w, 0, NO_PARTS).pos == |w|
  {
    AllLegal(w);
    assert w[0..|w|] == w;
    hide In;
    PathAt(w, 0, |w|, w, NO_PARTS);
    SlashReference(w);
    SlashFirst(w);
    ReferenceIs(w);
    Kinds(w);
    hide AbsoluteUri, NetPath, UriReference, AbsPath;
    var a := AbsPath(w, 0, NO_PARTS);
    QueryIs(w, 0, a);
    assert RelativeUri(w, 0, NO_PARTS) == WithQuery(w, 0, a);
  }

  lemma {:induction false} AllLegal(w: seq<char>)
    requires forall k :: 0 <= k < |w| ==> In(PathChar, w[k])
    ensures Legal(PathChar, w)
  {
    hide In;
    if w != [] { AllLegal(w[1..]); }
  }

  lemma BaseFromText(g: Generic)
    requires LegalUri(g) && NothingSwallowed(g) && !EndsInOneDigit(g)
    ensures var b := UriReference(Text(g), 0, NO_PARTS);
      && AllWithin(Text(g), b.parts) && b.parts.relPath.Unset? && b.parts.opaquePart.Unset?
      && var f := FieldsOf(Text(g), b.parts);
        && SchemeText(f) == g.scheme + [':']
        && AuthorityText(f) == ['/', '/'] + (Before(g.userinfo, '@') + (HostText(g.host) + After(':', g.port)))
        && Resolve.Trimmed(f.absPath) == g.path
  {
    RoundTripIff(g);
    SlicesReadBack(g);
    hide UriReference, LegalUri, NothingSwallowed, EndsInOneDigit, Text, HostText, MarksOf;
    BackIsWithin(g);
  }

  lemma BackIsWithin(g: Generic)
    requires g.host.labels != []
    requires ServerBack(g, Text(g), Expected(g).parts) && PathBack(g, Text(g), Expected(g).parts)
    ensures AllWithin(Text(g), Expected(g).parts)
    ensures Expected(g).parts.scheme.Slice? && Expected(g).parts.authority.Slice?
    ensures Expected(g).parts.relPath.Unset? && Expected(g).parts.opaquePart.Unset?
  {
    hide HostText, Text, MarksOf;
  }

  /** Base text and path text in, resolved text out: "scheme://authority" of the
      base, and the path. */
  lemma PathOnText(g: Generic, w: seq<char>)
    requires LegalUri(g) && NothingSwallowed(g) && !EndsInOneDigit(g)
    requires w != [] && w[0] == '/' && (|w| > 1 ==> w[1] != '/') && forall k :: 0 <= k < |w| ==> In(PathChar, w[k])
    ensures var b, r := UriReference(Text(g), 0, NO_PARTS).parts, UriReference(w, 0, NO_PARTS).parts;
      && AllWithin(Text(g), b) && b.relPath.Unset? && b.opaquePart.Unset?
      && AllWithin(w, r) && r.relPath.Unset? && r.opaquePart.Unset?
      && Resolve.Answered(FieldsOf(Text(g), b), FieldsOf(w, r)) ==
         Resolve.Answer(Resolve.RESOLVED,
                        g.scheme + [':'] + (['/', '/'] + (Before(g.userinfo, '@')
                                                          + (HostText(g.host) + After(':', g.port)))) + w)
  {
    BaseFromText(g);
    PathIsRead(w);
    var base := UriReference(Text(g), 0, NO_PARTS).parts;
    hide UriReference, LegalUri, NothingSwallowed, EndsInOneDigit, Text, HostText, In, Resolve.Answered, AllWithin,
      SchemeText, AuthorityText, Before, After;
    PathReference(FieldsOf(Text(g), base), w);
    assert w[..|w|] == w;
  }

  /** Of a null-terminated base path the last byte is not searched, though it is
      no NUL: a '/' there is not seen. */
  lemma TerminatedBase(w: seq<char>)
    ensures Resolve.BaseDirectory(Resolve.Part(w, true, false)) == Resolve.Directory(w)
    ensures |w| > 1 ==> Resolve.BaseDirectory(Resolve.Part(w, true, true)) == Resolve.Directory(w[..|w| - 1])
    ensures |w| <= 1 ==> Resolve.BaseDirectory(Resolve.Part(w, true, true)) == Resolve.Directory(w)
    ensures forall isNull :: Resolve.BaseDirectory(Resolve.Part(w, false, isNull)) == []
  {
  }

  // ------------------------------------------------------------ any components

  /** Only a fragment may be set in a reference to the current document. */
  lemma CurrentDocumentIff(base: Resolve.Fields, r: Resolve.Fields)
    ensures Resolve.Answered(base, r).status == Resolve.IS_CURRENT_DOCUMENT <==>
            !(r.netPath.isInit || r.absPath.isInit || r.relPath.isInit || r.opaquePart.isInit || r.scheme.isInit
              || r.authority.isInit || r.query.isInit)
  {
    hide Resolve.Recomposed, Resolve.Merged, Resolve.WrittenSegments, Resolve.WrittenPath, Resolve.Copied;
  }

  /** An opaque part counts only by its first byte: with a '/' there the base
      path is left out, otherwise it is merged as for a relative path. */
  lemma OpaqueReference(base: Resolve.Fields, r: Resolve.Fields)
    requires r.opaquePart.isInit && r.opaquePart.bytes != [] && !r.scheme.isInit && !r.authority.isInit
    requires r.relPath == r.absPath == Resolve.UNSET
    ensures var merged := Resolve.BaseDirectory(base.absPath);
      var path := if r.opaquePart.bytes[0] == '/' then [] else Resolve.Copied(Resolve.WrittenPath(merged));
      Resolve.Answered(base, r) ==
      if r.opaquePart.bytes[0] != '/' && DOTDOT in Resolve.WrittenSegments(merged)
      then Resolve.Answer(Resolve.NOT_RESOLVED, [])
      else Resolve.Answer(Resolve.RESOLVED,
                          Resolve.Recomposed(base.scheme, base.authority, path, r.query, r.fragment))
  {
    assert Resolve.Merged(base.absPath, r.relPath) == Resolve.BaseDirectory(base.absPath) by {
      assert Resolve.BaseDirectory(base.absPath) + [] == Resolve.BaseDirectory(base.absPath);
    }
    hide Resolve.Recomposed, Resolve.Merged, Resolve.WrittenSegments, Resolve.WrittenPath, Resolve.BaseDirectory;
  }
}
