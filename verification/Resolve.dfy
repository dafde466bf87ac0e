/** Resolving a relative reference against a base URI: base directory, dot
    segments, error test and recomposition (section 5.2 of RFC 2396). */
module Resolve {
  import opened Segments
  import opened DotSegments
  import opened PathRewrite
  import opened Memory

  /** A component: its bytes up to the write position, and its flags. */
  datatype Part = Part(bytes: seq<char>, isInit: bool, isNull: bool)

  const UNSET := Part([], false, false)

  /** What the recomposition copies: a null-terminated component loses its last
      byte, although the write position already excludes the NUL. */
  function Copied(p: Part): seq<char> {
    if p.isNull && |p.bytes| > 0 then p.bytes[..|p.bytes| - 1] else p.bytes
  }

  function Prefixed(p: Part, before: seq<char>): seq<char> {
    if p.isInit then before + Copied(p) else []
  }

  function Scheme(p: Part): seq<char> { if p.isInit then Copied(p) + ":" else [] }

  /** Section 5.2 of RFC 2396, step 7. */
  function Recomposed(scheme: Part, authority: Part, path: seq<char>, query: Part, fragment: Part): seq<char> {
    Scheme(scheme) + Prefixed(authority, "//") + path + Prefixed(query, "?") + Prefixed(fragment, "#")
  }

  /** Bytes the sizing pass counts for a component but the copy leaves out. */
  function Dropped(p: Part): nat { if p.isNull && |p.bytes| > 0 then 1 else 0 }

  function DroppedIfInit(p: Part): nat { if p.isInit then Dropped(p) else 0 }

  lemma PartSize(p: Part, before: seq<char>)
    ensures |Copied(p)| + Dropped(p) == |p.bytes|
    ensures |Prefixed(p, before)| + DroppedIfInit(p) == if p.isInit then |p.bytes| + |before| else 0
    ensures |Scheme(p)| + DroppedIfInit(p) == if p.isInit then |p.bytes| + 1 else 0
  {
  }

  /** The base path up to and including its last '/'. */
  function Directory(path: seq<char>): seq<char> {
    if path == [] then []
    else if path[|path| - 1] == '/' then path
    else Directory(path[..|path| - 1])
  }

  /** The bytes searched for a '/': a lone byte is searched even if it is the NUL. */
  function Trimmed(base: Part): seq<char> {
    if base.isNull && |base.bytes| > 1 then base.bytes[..|base.bytes| - 1] else base.bytes
  }

  function BaseDirectory(base: Part): seq<char> {
    if base.isInit then Directory(Trimmed(base)) else []
  }

  /** The backward search for a '/' ends: its unsigned index has no value below zero. */
  predicate Searchable(base: Part) {
    base.isInit && base.bytes != [] ==> '/' in Trimmed(base)
  }

  lemma NoDirectory()
    ensures Directory([]) == []
  {
  }

  lemma WholeText(b: seq<char>)
    ensures b[..|b|] == b
  {
  }

  /** One step of the search for the last '/'. */
  lemma SearchBack(b: seq<char>, i: nat)
    requires i < |b| && '/' in b[..i + 1]
    ensures b[i] == '/' ==> Directory(b[..i + 1]) == b[..i + 1]
    ensures b[i] != '/' ==> i > 0 && '/' in b[..i] && Directory(b[..i + 1]) == Directory(b[..i])
  {
    var t := b[..i + 1];
    assert t[|t| - 1] == b[i] && t[..i] == b[..i] && t == b[..i] + [b[i]];
  }

  /** Base directory and relative path, before any rewriting. */
  function Merged(base: Part, rel: Part): seq<char> {
    BaseDirectory(base) + (if rel.isInit then Copied(rel) else [])
  }

  /** The segments the code rewrites a merged path to. */
  function WrittenSegments(merged: seq<char>): (segs: seq<Segment>)
    ensures segs != []
  {
    Fold(true, [], DropDots(Split(merged), [NUL]))
  }

  function WrittenPath(merged: seq<char>): Part { Part(Join(WrittenSegments(merged)), true, true) }

  /** The path of section 5.2 of RFC 2396, step 6. */
  function RfcPath(merged: seq<char>): seq<char> {
    Join(RfcFold(DropDots(Split(merged), [])))
  }

  function Size(p: Part, extra: nat): nat { if p.isInit then |p.bytes| + extra else 0 }

  lemma SizeOf(scheme: Part, authority: Part, path: Part, query: Part, fragment: Part)
    ensures |Recomposed(scheme, authority, Copied(path), query, fragment)|
      + DroppedIfInit(scheme) + DroppedIfInit(authority) + Dropped(path)
      + DroppedIfInit(query) + DroppedIfInit(fragment)
      == Size(scheme, 1) + Size(authority, 2) + |path.bytes| + Size(query, 1) + Size(fragment, 1)
  {
    PartSize(scheme, "");
    PartSize(authority, "//");
    PartSize(path, "");
    PartSize(query, "?");
    PartSize(fragment, "#");
    hide Copied, Dropped, DroppedIfInit, Prefixed, Scheme;
  }

  const NOT_RESOLVED := 0
  const RESOLVED := 1
  const IS_CURRENT_DOCUMENT := 2
  const IS_ABSOLUTE_URI := 3

  method CopyPart(buf: array<char>, at: nat, p: Part, before: seq<char>) returns (end: nat)
    requires at + |Prefixed(p, before)| <= buf.Length
    modifies buf
    ensures end == at + |Prefixed(p, before)| && buf[..end] == old(buf[..at]) + Prefixed(p, before)
  {
    end := at;
    if p.isInit {
      end := CopyInto(buf, end, before);
      end := CopyInto(buf, end, Copied(p));
    }
  }

  method CopyScheme(buf: array<char>, at: nat, p: Part) returns (end: nat)
    requires at + |Scheme(p)| <= buf.Length
    modifies buf
    ensures end == at + |Scheme(p)| && buf[..end] == old(buf[..at]) + Scheme(p)
  {
    end := at;
    if p.isInit {
      end := CopyInto(buf, end, Copied(p));
      end := CopyInto(buf, end, ":");
    }
  }

  // ------------------------------------------------------------ what is answered

  /** The components of a parsed URI. */
  datatype Fields = Fields(scheme: Part, authority: Part, netPath: Part, absPath: Part, relPath: Part,
                           opaquePart: Part, query: Part, fragment: Part)

  predicate IsEmptyReference(r: Fields) {
    !r.netPath.isInit && !r.absPath.isInit && !r.relPath.isInit && !r.opaquePart.isInit
    && !r.scheme.isInit && !r.authority.isInit && !r.query.isInit
  }

  /** The network path and absolute path cases use the reference's own path. */
  predicate HasOwnPath(r: Fields) {
    r.authority.isInit || (r.absPath.isInit && !r.relPath.isInit)
    || (r.opaquePart.isInit && r.opaquePart.bytes != [] && r.opaquePart.bytes[0] == '/')
  }

  datatype Answer = Answer(status: nat, text: seq<char>)

  /** Section 5.2 of RFC 2396 as the code carries it out. */
  function Answered(base: Fields, r: Fields): Answer {
    var authority := if r.authority.isInit then r.authority else base.authority;
    if IsEmptyReference(r) then Answer(IS_CURRENT_DOCUMENT, [])
    else if r.scheme.isInit then Answer(IS_ABSOLUTE_URI, [])
    else if HasOwnPath(r) then
      Answer(RESOLVED, Recomposed(base.scheme, authority, Copied(r.absPath), r.query, r.fragment))
    else
      var merged := Merged(base.absPath, r.relPath);
      if DOTDOT in WrittenSegments(merged) then Answer(NOT_RESOLVED, [])
      else Answer(RESOLVED, Recomposed(base.scheme, authority, Copied(WrittenPath(merged)), r.query, r.fragment))
  }

  class Uri {
    var scheme: Part
    var authority: Part
    var path: Part
    var netPath: Part
    var absPath: Part
    var relPath: Part
    var opaquePart: Part
    var query: Part
    var fragment: Part
    var uriBuf: array<char>
    var uriReadPos: nat
    var uriWritePos: nat

    constructor ()
      ensures scheme == authority == path == netPath == absPath == relPath == opaquePart == query == fragment == UNSET
      ensures uriReadPos == uriWritePos == 0 && fresh(uriBuf)
    {
      scheme, authority, path, netPath, absPath := UNSET, UNSET, UNSET, UNSET, UNSET;
      relPath, opaquePart, query, fragment := UNSET, UNSET, UNSET, UNSET;
      uriBuf, uriReadPos, uriWritePos := new char[0], 0, 0;
    }

    /** The path the recomposition uses. */
    function ChosenPath(useAbsPath: bool): Part
      reads this`absPath, this`path
    {
      if useAbsPath then absPath else if path.isInit then path else UNSET
    }

    /** The sizing pass. */
    method RecomposedSize(useAbsPath: bool) returns (size: nat)
      ensures size == |Recomposed(scheme, authority, Copied(ChosenPath(useAbsPath)), query, fragment)| + 1
        + DroppedIfInit(scheme) + DroppedIfInit(authority) + Dropped(ChosenPath(useAbsPath))
        + DroppedIfInit(query) + DroppedIfInit(fragment)
    {
      SizeOf(scheme, authority, ChosenPath(useAbsPath), query, fragment);
      hide Copied, Dropped, DroppedIfInit, Prefixed, Scheme, Recomposed;
      size := 0;
      if scheme.isInit {
        size := size + |scheme.bytes| + 1;
      }
      if authority.isInit {
        size := size + |authority.bytes| + 2;
      }
      if useAbsPath {
        size := size + |absPath.bytes|;
      } else if path.isInit {
        size := size + |path.bytes|;
      }
      if query.isInit {
        size := size + |query.bytes| + 1;
      }
      if fragment.isInit {
        size := size + |fragment.bytes| + 1;
      }
      size := size + 1;
    }

    /** Sizing pass, then writing pass: the text is the recomposition, and the
        buffer is longer than text and NUL by one byte for every
        null-terminated component in use. */
    method Recompose(useAbsPath: bool)
      modifies this`uriBuf, this`uriReadPos, this`uriWritePos
      ensures fresh(uriBuf) && uriReadPos < uriBuf.Length
      ensures uriBuf[..uriReadPos] == Recomposed(scheme, authority, Copied(ChosenPath(useAbsPath)), query, fragment)
      ensures uriBuf[uriReadPos] == '\0' && uriWritePos == uriBuf.Length - 1
      ensures uriBuf.Length == uriReadPos + 1 + DroppedIfInit(scheme) + DroppedIfInit(authority)
        + Dropped(ChosenPath(useAbsPath)) + DroppedIfInit(query) + DroppedIfInit(fragment)
    {
      hide Copied, Dropped, DroppedIfInit, Prefixed;
      var size := RecomposedSize(useAbsPath);
      var buf := new char[size];
      var at := 0;
      at := CopyScheme(buf, at, scheme);
      assert buf[..at] == Scheme(scheme);
      at := CopyPart(buf, at, authority, "//");
      at := CopyInto(buf, at, Copied(ChosenPath(useAbsPath)));
      assert buf[..at] == Scheme(scheme) + Prefixed(authority, "//") + Copied(ChosenPath(useAbsPath));
      at := CopyPart(buf, at, query, "?");
      at := CopyPart(buf, at, fragment, "#");
      assert buf[..at] == Recomposed(scheme, authority, Copied(ChosenPath(useAbsPath)), query, fragment);
      buf[at] := '\0';
      uriBuf, uriReadPos := buf, at;
      uriWritePos := size - 1;
    }

    /** The components of the struct. */
    function Found(): Fields
      reads this
    {
      Fields(scheme, authority, netPath, absPath, relPath, opaquePart, query, fragment)
    }

    /** Length of the base path up to and including its last '/'. */
    static method DirectorySize(base: Part) returns (size: nat)
      requires Searchable(base)
      ensures size <= |base.bytes| && base.bytes[..size] == BaseDirectory(base)
    {
      hide Directory;
      size := 0;
      if base.isInit && |base.bytes| > 0 {
        var i := |base.bytes| - 1;
        if i > 0 && base.isNull {
          i := i - 1;
        }
        ghost var b := base.bytes[..i + 1];
        assert b == Trimmed(base);
        WholeText(b);
        while i >= 0
          invariant 0 <= i < |b| && size == 0 && '/' in b[..i + 1]
          invariant Directory(b) == Directory(b[..i + 1])
        {
          SearchBack(b, i);
          if base.bytes[i] == '/' {
            size := i + 1;
            assert base.bytes[..size] == b[..size];
            break;
          }
          i := i - 1;
        }
      } else {
        NoDirectory();
      }
    }

    /** Copies base directory and relative path into a fresh, null-terminated buffer. */
    method CopyMerged(base: Part) returns (buf: array<char>)
      requires Searchable(base)
      ensures fresh(buf) && buf.Length > 0 && buf[..buf.Length - 1] == Merged(base, relPath)
    {
      var dirSize := DirectorySize(base);
      var rel := if relPath.isInit then Copied(relPath) else [];
      buf := new char[dirSize + |rel| + 1];
      var end := CopyInto(buf, 0, base.bytes[..dirSize]);
      end := CopyInto(buf, end, rel);
      buf[buf.Length - 1] := NUL;
    }

    /** Rewrites the merged path in its buffer. */
    method MergePaths(base: Part) returns (isError: bool)
      requires Searchable(base)
      modifies this`path
      ensures path == WrittenPath(Merged(base, relPath))
      ensures isError <==> DOTDOT in WrittenSegments(Merged(base, relPath))
    {
      WrittenIsPlain(Merged(base, relPath));
      hide *;
      var buf := CopyMerged(base);
      var n := RemovePoint(buf, buf.Length - 1);
      n := RemovePoints(buf, n);
      path := Part(buf[..n], true, true);
      isError := LeadingPoints(buf, n);
    }

    method ResolveUri(base: Uri) returns (status: nat)
      requires base != this
      requires !IsEmptyReference(Found()) && !scheme.isInit && !HasOwnPath(Found()) ==> Searchable(base.absPath)
      modifies this
      ensures var a := Answered(old(base.Found()), old(Found()));
        && status == a.status
        && (status == RESOLVED ==> uriReadPos < uriBuf.Length && uriBuf[..uriReadPos] == a.text)
      ensures status == IS_CURRENT_DOCUMENT || status == IS_ABSOLUTE_URI ==> Found() == old(Found())
      ensures status == RESOLVED || status == NOT_RESOLVED ==>
        Found() == old(Found()).(scheme := base.scheme,
                                 authority := if old(authority.isInit) then old(authority) else base.authority)
      ensures (status == RESOLVED || status == NOT_RESOLVED) && !old(HasOwnPath(Found())) ==>
        path == WrittenPath(Merged(base.absPath, relPath))
    {
      hide Copied, Recomposed, WrittenSegments, Merged;
      if !netPath.isInit && !absPath.isInit && !relPath.isInit && !opaquePart.isInit {
        if !scheme.isInit && !authority.isInit && !query.isInit {
          return IS_CURRENT_DOCUMENT;
        }
      }
      if scheme.isInit {
        return IS_ABSOLUTE_URI;
      }
      scheme := base.scheme;
      var isNetworkPath, isAbsolutePath := false, false;
      if authority.isInit {
        isNetworkPath := true;
      } else {
        authority := base.authority;
      }
      if !isNetworkPath {
        if absPath.isInit && !relPath.isInit {
          isAbsolutePath := true;
        } else if opaquePart.isInit {
          if |opaquePart.bytes| > 0 && opaquePart.bytes[0] == '/' {
            isAbsolutePath := true;
          }
        }
      }
      if !isNetworkPath && !isAbsolutePath {
        var isError := MergePaths(base.absPath);
        if isError {
          return NOT_RESOLVED;
        }
      }
      Recompose(isNetworkPath || isAbsolutePath);
      status := RESOLVED;
    }
  }

  lemma DropDotsPlain(segs: seq<Segment>, last: Segment)
    requires segs != [] && Plain(segs) && NoSlash(last)
    ensures Plain(DropDots(segs, last))
  {
    WithoutDotsHasNone(Butlast(segs));
  }

  lemma WrittenIsPlain(merged: seq<char>)
    ensures Plain(WrittenSegments(merged))
    ensures Split(Join(WrittenSegments(merged))) == WrittenSegments(merged)
    ensures Reduced(Join(DropDots(Split(merged), [NUL]))) == WrittenSegments(merged)
    ensures FirstNonEmpty(WrittenSegments(merged)) == DOTDOT <==> DOTDOT in WrittenSegments(merged)
    ensures WrittenPath(merged) == Part(Join(WrittenSegments(merged)), true, true)
  {
    SplitPlain(merged);
    var segs := DropDots(Split(merged), [NUL]);
    DropDotsPlain(Split(merged), [NUL]);
    SplitJoin(segs);
    FoldPlain(true, [], segs);
    SplitJoin(WrittenSegments(merged));
    SurvivorsLead(true, segs);
  }

  // ------------------------------------------------- exactness of the path

  /** The segments of a text without its last byte. */
  function Truncated(segs: seq<Segment>): seq<Segment>
    requires segs != []
  {
    if Top(segs) != [] then Butlast(segs) + [Top(segs)[..|Top(segs)| - 1]]
    else if |segs| > 1 then Butlast(segs)
    else segs
  }

  lemma CopiedIsTruncated(segs: seq<Segment>)
    requires segs != [] && Plain(segs)
    ensures Truncated(segs) != [] && Plain(Truncated(segs))
    ensures Copied(Part(Join(segs), true, true)) == Join(Truncated(segs))
  {
    var init, last := Butlast(segs), Top(segs);
    if last != [] {
      assert Butlast(Truncated(segs)) == init;
    } else if |segs| > 1 {
      assert Lead(init) == Join(init) + ['/'];
    }
  }

  /** The text of a list of segments is the RFC path exactly when the lists agree. */
  lemma RfcPathIs(merged: seq<char>, segs: seq<Segment>)
    requires segs != [] && Plain(segs)
    ensures Join(segs) == RfcPath(merged) <==> segs == RfcFold(DropDots(Split(merged), []))
  {
    var d := DropDots(Split(merged), []);
    SplitPlain(merged);
    DropDotsPlain(Split(merged), []);
    FoldPlain(false, [], d);
    if |d| > 1 { FoldPlain(false, [], d[1..]); }
    JoinInjective(segs, RfcFold(d));
  }

  /** A final "." is what the lost byte was: the NUL the code left in its place. */
  lemma DotEnding(merged: seq<char>)
    requires Top(Split(merged)) == DOT
    ensures var d := DropDots(Split(merged), []);
      Copied(WrittenPath(merged)) == RfcPath(merged) <==> Safe([], d) && StaysBelowRoot(d)
  {
    var empty: seq<Segment> := [];
    var w := WithoutDots(Butlast(Split(merged)));
    var d := DropDots(Split(merged), []);
    assert d == w + [[]];
    var a := Run(true, empty, w);
    FoldRun(true, empty, w, [NUL]);
    FoldRun(true, empty, w, []);
    WrittenIsPlain(merged);
    CopiedIsTruncated(WrittenSegments(merged));
    assert Truncated(a + [[NUL]]) == a + [[]];
    RfcPathIs(merged, a + [[]]);
    ReadingsAgreeIff(empty, d);
    RfcFoldIff(d);
    SurvivorsLead(true, d);
  }

  /** Losing a byte changes the path, unless there is none to lose. */
  lemma CutMeetsRfcIff(d: seq<Segment>, g: seq<Segment>)
    requires d != [] && Plain(d) && g == Fold(true, [], d) && DOTDOT !in g
    ensures Truncated(g) == RfcFold(d) <==> Safe([], d) && StaysBelowRoot(d) && g == [[]]
  {
    var t := Truncated(g);
    ReadingsAgreeIff([], d);
    RfcFoldIff(d);
    RfcFoldEnds(d);
    LastOfFold(true, [], d);
    FoldPlain(true, [], d);
    hide Fold, Safe, NeverClimbs, StaysBelowRoot;
    TruncatedIs(g);
    if t == RfcFold(d) && StaysBelowRoot(d) && !Safe([], d) {
      NoDotsIsHigh(g);
      NoDotsIsHigh(t);
    }
  }

  lemma TruncatedIs(g: seq<Segment>)
    requires g != []
    ensures Truncated(g) == g <==> g == [[]]
    ensures Top(g) != [] ==>
      |Truncated(g)| == |g| && Butlast(Truncated(g)) == Butlast(g) && Top(Truncated(g)) != Top(g)
    ensures Top(g) == [] && g != [[]] ==> Truncated(g) == Butlast(g)
  {
    if Top(g) != [] {
      assert Top(Truncated(g)) == Top(g)[..|Top(g)| - 1];
      assert |Top(Truncated(g))| != |Top(g)|;
    } else if |g| == 1 {
      assert g == [Top(g)];
    }
  }

  /** Without a final "." the lost byte belongs to the path. */
  lemma OtherEnding(merged: seq<char>)
    requires Top(Split(merged)) != DOT && DOTDOT !in WrittenSegments(merged)
    ensures var d := DropDots(Split(merged), []);
      Copied(WrittenPath(merged)) == RfcPath(merged)
      <==> Safe([], d) && StaysBelowRoot(d) && ReducesToNothing(d)
  {
    var d := DropDots(Split(merged), []);
    var g := WrittenSegments(merged);
    assert g == Fold(true, [], d);
    hide Fold, RfcFold, Safe, NeverClimbs, StaysBelowRoot, Plain, ReducesToNothing;
    SplitPlain(merged);
    DropDotsPlain(Split(merged), []);
    WrittenIsPlain(merged);
    CopiedIsTruncated(g);
    RfcPathIs(merged, Truncated(g));
    CutMeetsRfcIff(d, g);
    ReadingsAgreeIff([], d);
    if Safe([], d) { ReducesToNothingIff(d); }
  }

  /** The path the code puts into a resolved URI is the one of RFC 2396 exactly
      when no ".." takes away a glued segment, the merged path never climbs
      above its root, and it ends in a "." segment or its ".." take everything
      away. */
  lemma ResolvedPathIff(merged: seq<char>)
    requires DOTDOT !in WrittenSegments(merged)
    ensures var d := DropDots(Split(merged), []);
      Copied(WrittenPath(merged)) == RfcPath(merged)
      <==> Safe([], d) && StaysBelowRoot(d) && (Top(Split(merged)) == DOT || ReducesToNothing(d))
  {
    if Top(Split(merged)) == DOT { DotEnding(merged); } else { OtherEnding(merged); }
  }

  /** When no ".." takes away a glued segment, the code refuses a merged path
      exactly when some beginning of it has more ".." than other segments, the
      empty one before a leading '/' among them. */
  lemma RefusedIff(merged: seq<char>)
    requires Safe([], DropDots(Split(merged), [NUL]))
    ensures DOTDOT in WrittenSegments(merged) <==> !NeverClimbs(0, DropDots(Split(merged), [NUL]))
  {
    var d := DropDots(Split(merged), [NUL]);
    ReadingsAgreeIff([], d);
    ClimbIff([], d);
  }

  /** "/../a" climbs above its root: RFC 2396 leaves it as it is, the code
      takes the root away. */
  lemma ClimbLosesTheSlash(a: Segment)
    requires NoSlash(a) && a != DOT && a != DOTDOT
    ensures var merged := Join([[], DOTDOT, a]);
      WrittenPath(merged) == Part(a, true, true) && RfcPath(merged) == merged
    ensures Join([[], DOTDOT, a]) == ['/', '.', '.', '/'] + a
  {
    var segs := [[], DOTDOT, a];
    var merged := Join(segs);
    assert DOT !in segs && Top(segs) == a && Plain(segs);
    SplitJoin(segs);
    assert segs == Butlast(segs) + [a];
    WithoutDotsFixed(Butlast(segs));
    assert DropDots(segs, [NUL]) == segs == DropDots(segs, []);
    hide Fold, RfcFold, DropDots, Split, Join;
    ClimbLosesTheRoot(a);
    JoinOne(a);
    JoinRoot(a);
  }

  lemma JoinRoot(a: Segment)
    ensures Join([[], DOTDOT, a]) == ['/', '.', '.', '/'] + a
  {
    JoinCons(DOTDOT, [a]);
    JoinCons([], [DOTDOT] + [a]);
    assert [[]] + ([DOTDOT] + [a]) == [[], DOTDOT, a];
    JoinOne(a);
  }

  /** Without dot segments there is nothing to rewrite, in either reading. */
  lemma PlainStays(segs: seq<Segment>)
    requires segs != [] && Plain(segs) && DOT !in segs && DOTDOT !in segs
    ensures WrittenSegments(Join(segs)) == segs && RfcPath(Join(segs)) == Join(segs)
  {
    SplitJoin(segs);
    assert Top(segs) in segs && segs == Butlast(segs) + [Top(segs)];
    WithoutDotsFixed(Butlast(segs));
    assert DropDots(segs, [NUL]) == segs && DropDots(segs, []) == segs;
    hide Split, DropDots, WithoutDots, Fold, Join, Plain;
    NothingToFold(true, segs);
    NothingToFold(false, segs);
    if |segs| > 1 { NothingToFold(false, segs[1..]); }
    RfcFoldIff(segs);
  }

  /** Every merged path without dot segments loses its last byte. */
  lemma PlainPathIsCutShort(segs: seq<Segment>)
    requires segs != [] && Plain(segs) && DOT !in segs && DOTDOT !in segs
    ensures var merged := Join(segs);
      && RfcPath(merged) == merged
      && Copied(WrittenPath(merged)) == if merged == [] then [] else merged[..|merged| - 1]
  {
    hide Split, DropDots, Fold, Join, RfcPath, WrittenSegments, Plain;
    PlainStays(segs);
  }
}
