/** What the URI parser answers in front of a line break does not depend on
    what follows it, nor on what an earlier parse left in the components. */
module UriLocality {
  import opened Cursor
  import opened UriGrammar
  import opened UriScan

  /** Two texts that agree up to and including a CRLF at `k`. */
  predicate Near(t: seq<char>, u: seq<char>, k: nat) {
    k + 2 <= |t| && k + 2 <= |u| && t[..k + 2] == u[..k + 2] && t[k] == '\r' && t[k + 1] == '\n'
  }

  lemma Same(t: seq<char>, u: seq<char>, k: nat)
    requires Near(t, u, k)
    ensures forall i :: 0 <= i < k + 2 ==> t[i] == u[i]
  {
    forall i | 0 <= i < k + 2 ensures t[i] == u[i] { assert t[..k + 2][i] == u[..k + 2][i]; }
  }

  lemma IsNear(t: seq<char>, u: seq<char>, k: nat, p: nat, c: char)
    requires Near(t, u, k) && p <= k + 1
    ensures Is(t, p, c) == Is(u, p, c) && CharAt(t, p) == CharAt(u, p)
    ensures Is(t, p, c) && c != '\r' && c != '\n' ==> p < k
  {
    Same(t, u, k);
  }

  lemma StartsNear(cls: Class, t: seq<char>, u: seq<char>, k: nat, p: nat)
    requires Near(t, u, k) && p <= k + 1
    ensures Starts(cls, t, p) == Starts(cls, u, p)
    ensures Starts(cls, t, p) ==> Step(cls, t, p) == Step(cls, u, p) <= k + 1
  {
    Same(t, u, k);
    NoBreak(cls);
    assert !Hex('\r') && !Hex('\n');
    hide In, Hex;
  }

  lemma NoBreak(cls: Class)
    ensures !In(cls, '\r') && !In(cls, '\n')
  {
  }

  /** In front of a line break no '%' ends the text. */
  lemma MissedNear(cls: Class, t: seq<char>, u: seq<char>, k: nat, p: nat)
    requires Near(t, u, k) && p <= k + 1
    ensures Missed(cls, t, p) == Missed(cls, u, p) == p
  {
  }

  lemma {:induction false} ScanNear(cls: Class, t: seq<char>, u: seq<char>, k: nat, p: nat)
    requires Near(t, u, k) && p <= k + 1
    ensures Scan(cls, t, p) == Scan(cls, u, p) <= k + 1
    decreases k + 1 - p
  {
    StartsNear(cls, t, u, k, p);
    MissedNear(cls, t, u, k, p);
    hide Near, Starts, Step, Missed;
    if Starts(cls, t, p) { ScanNear(cls, t, u, k, Step(cls, t, p)); }
  }

  /** A component is kept by both runs or written alike by both. */
  predicate EvenSlice(x: Slice, y: Slice, x': Slice, y': Slice) { (x' == x && y' == y) || x' == y' }

  predicate Even(x: Parts, y: Parts, x': Parts, y': Parts) {
    && EvenSlice(x.scheme, y.scheme, x'.scheme, y'.scheme)
    && EvenSlice(x.authority, y.authority, x'.authority, y'.authority)
    && EvenSlice(x.userinfo, y.userinfo, x'.userinfo, y'.userinfo)
    && EvenSlice(x.host, y.host, x'.host, y'.host)
    && EvenSlice(x.port, y.port, x'.port, y'.port)
    && EvenSlice(x.netPath, y.netPath, x'.netPath, y'.netPath)
    && EvenSlice(x.absPath, y.absPath, x'.absPath, y'.absPath)
    && EvenSlice(x.relPath, y.relPath, x'.relPath, y'.relPath)
    && EvenSlice(x.opaquePart, y.opaquePart, x'.opaquePart, y'.opaquePart)
    && EvenSlice(x.query, y.query, x'.query, y'.query)
    && EvenSlice(x.fragment, y.fragment, x'.fragment, y'.fragment)
  }

  /** Parsing again over what the same parse left changes nothing. */
  lemma EvenAgain(x: Parts, x': Parts, x'': Parts)
    requires Even(x, x', x', x'')
    ensures x'' == x'
  {
  }

  lemma EvenThen(x: Parts, y: Parts, x': Parts, y': Parts, x'': Parts, y'': Parts)
    requires Even(x, y, x', y') && Even(x', y', x'', y'')
    ensures Even(x, y, x'', y'')
  {
  }

  /** The two runs decide alike, stop at the same place before the end of the
      line break, and write the same components. */
  predicate Alike(k: nat, x: Parts, y: Parts, r: Parse, s: Parse) {
    r.ok == s.ok && r.pos == s.pos <= k + 1 && Even(x, y, r.parts, s.parts)
  }

  lemma AlikeThen(k: nat, x: Parts, y: Parts, r: Parse, s: Parse, r': Parse, s': Parse)
    requires Alike(k, x, y, r, s) && Alike(k, r.parts, s.parts, r', s')
    ensures Alike(k, x, y, r', s')
  {
  }

  lemma AlikeIs(k: nat, x: Parts, y: Parts, r: Parse, s: Parse)
    requires Alike(k, x, y, r, s)
    ensures r.ok == s.ok && r.pos == s.pos <= k + 1
  {
  }

  lemma AlikeIsEven(k: nat, x: Parts, y: Parts, r: Parse, s: Parse)
    requires Alike(k, x, y, r, s)
    ensures Even(x, y, r.parts, s.parts)
  {
  }

  /** A failure keeps the components and puts the cursor back. */
  lemma AlikeFailure(k: nat, p: nat, x: Parts, y: Parts, r: Parse, s: Parse)
    requires Alike(k, x, y, r, s) && p <= k + 1
    ensures Alike(k, x, y, Parse(false, p, r.parts), Parse(false, p, s.parts))
    ensures Alike(k, x, y, Parse(false, p, r.parts.(scheme := Unset)), Parse(false, p, s.parts.(scheme := Unset)))
  {
  }

  lemma PathEndNear(t: seq<char>, u: seq<char>, k: nat, p: nat)
    requires Near(t, u, k) && p <= k + 1
    ensures PathEnd(t, p) == PathEnd(u, p) <= k + 1
  {
    PathIsFlat(t, p);
    PathIsFlat(u, p);
    hide Scan, PathEnd;
    ScanNear(PathChar, t, u, k, p);
  }

  lemma AbsPathNear(t: seq<char>, u: seq<char>, k: nat, p: nat, x: Parts, y: Parts)
    requires Near(t, u, k) && p <= k + 1
    ensures Alike(k, x, y, AbsPath(t, p, x), AbsPath(u, p, y))
  {
    hide PathEnd, Near;
    IsNear(t, u, k, p, '/');
    if Is(t, p, '/') { PathEndNear(t, u, k, p + 1); }
  }

  lemma RelPathNear(t: seq<char>, u: seq<char>, k: nat, p: nat, x: Parts, y: Parts)
    requires Near(t, u, k) && p <= k + 1
    ensures Alike(k, x, y, RelPath(t, p, x), RelPath(u, p, y))
  {
    hide AbsPath, Near, Starts, Scan;
    StartsNear(RelSegment, t, u, k, p);
    ScanNear(RelSegment, t, u, k, p);
    AbsPathNear(t, u, k, Scan(RelSegment, t, p), x, y);
  }

  lemma SchemeNear(t: seq<char>, u: seq<char>, k: nat, p: nat, x: Parts, y: Parts)
    requires Near(t, u, k) && p <= k + 1
    ensures Alike(k, x, y, Scheme(t, p, x), Scheme(u, p, y))
  {
    hide Scan, Near;
    IsNear(t, u, k, p, ':');
    ScanNear(SchemeChar, t, u, k, p);
  }

  lemma LabelNear(t: seq<char>, u: seq<char>, k: nat, p: nat, top: bool)
    requires Near(t, u, k) && p <= k + 1
    ensures LabelOk(t, p, top) == LabelOk(u, p, top)
  {
    IsNear(t, u, k, p, '-');
    ScanNear(Label, t, u, k, p);
    Same(t, u, k);
    assert Alphanum(CharAt(t, p)) ==> Starts(Label, t, p);
    hide Scan;
  }

  lemma {:induction false} LastLabelNear(t: seq<char>, u: seq<char>, k: nat, p: nat, last: nat)
    requires Near(t, u, k) && p <= k + 1 && last <= k + 1
    ensures LastLabel(t, p, last) == LastLabel(u, p, last) <= k + 1
    decreases k + 1 - p
  {
    hide LabelOk, Scan, Near;
    LabelNear(t, u, k, p, false);
    var e := Scan(Label, t, p);
    ScanNear(Label, t, u, k, p);
    IsNear(t, u, k, e, '.');
    if LabelOk(t, p, false) && Is(t, e, '.') { LastLabelNear(t, u, k, e + 1, p); }
  }

  lemma HostnameNear(t: seq<char>, u: seq<char>, k: nat, p: nat)
    requires Near(t, u, k) && p <= k + 1
    ensures Hostname(t, p) == Hostname(u, p) && Hostname(t, p).1 <= k + 1
  {
    hide LabelOk, LastLabel, Scan, Near;
    LastLabelNear(t, u, k, p, p);
    var l := LastLabel(t, p, p);
    LabelNear(t, u, k, l, true);
    ScanNear(Label, t, u, k, l);
    IsNear(t, u, k, Scan(Label, t, l), '.');
  }

  lemma DigitNear(t: seq<char>, u: seq<char>, k: nat, p: nat)
    requires Near(t, u, k) && p <= k + 1
    ensures Digit(CharAt(t, p)) <==> Digit(CharAt(u, p))
    ensures Digit(CharAt(t, p)) ==> p < k && HasNext(t, p) && HasNext(u, p)
  {
    Same(t, u, k);
  }

  lemma {:induction false} NumbersNear(t: seq<char>, u: seq<char>, k: nat, p: nat, i: nat)
    requires Near(t, u, k) && p <= k + 1 && i < 4
    ensures Numbers(t, p, i) == Numbers(u, p, i) && Numbers(t, p, i).1 <= k + 1
    decreases 4 - i
  {
    hide *;
    DigitNear(t, u, k, p);
    NumbersUnfold(t, p, i);
    NumbersUnfold(u, p, i);
    if Digit(CharAt(t, p)) {
      var e := Scan(Number, t, p + 1);
      ScanNear(Number, t, u, k, p + 1);
      IsNear(t, u, k, e, '.');
      if i < 3 && Is(t, e, '.') { NumbersNear(t, u, k, e + 1, i + 1); }
    }
  }

  lemma HostNear(t: seq<char>, u: seq<char>, k: nat, p: nat, x: Parts, y: Parts)
    requires Near(t, u, k) && p <= k + 1
    ensures Alike(k, x, y, Host(t, p, x), Host(u, p, y))
  {
    hide Hostname, Numbers, Near;
    HostnameNear(t, u, k, p);
    NumbersNear(t, u, k, p, 0);
  }

  lemma HostportNear(t: seq<char>, u: seq<char>, k: nat, p: nat, x: Parts, y: Parts)
    requires Near(t, u, k) && p <= k + 1
    ensures Alike(k, x, y, Hostport(t, p, x), Hostport(u, p, y))
  {
    hide Host, Scan, Near;
    HostNear(t, u, k, p, x, y);
    var h := Host(t, p, x);
    IsNear(t, u, k, h.pos, ':');
    if h.ok && Is(t, h.pos, ':') { ScanNear(Number, t, u, k, h.pos + 1); }
  }

  lemma AuthorityNear(t: seq<char>, u: seq<char>, k: nat, p: nat, x: Parts, y: Parts)
    requires Near(t, u, k) && p <= k + 1
    ensures Alike(k, x, y, Authority(t, p, x), Authority(u, p, y))
  {
    hide Hostport, Scan, Near;
    ScanNear(Userinfo, t, u, k, p);
    var e := Scan(Userinfo, t, p);
    IsNear(t, u, k, e, '@');
    if Is(t, e, '@') {
      HostportNear(t, u, k, e + 1, x.(userinfo := Slice(p, e)), y.(userinfo := Slice(p, e)));
    } else {
      HostportNear(t, u, k, p, x, y);
    }
  }

  lemma NetPathNear(t: seq<char>, u: seq<char>, k: nat, p: nat, x: Parts, y: Parts)
    requires Near(t, u, k) && p <= k + 1
    ensures Alike(k, x, y, NetPath(t, p, x), NetPath(u, p, y))
  {
    hide Authority, AbsPath, Near;
    IsNear(t, u, k, p, '/');
    if Is(t, p, '/') {
      IsNear(t, u, k, p + 1, '/');
      if Is(t, p + 1, '/') {
        AuthorityNear(t, u, k, p + 2, x, y);
        var a, b := Authority(t, p + 2, x), Authority(u, p + 2, y);
        AbsPathNear(t, u, k, a.pos, a.parts, b.parts);
        EvenThen(x, y, a.parts, b.parts, AbsPath(t, a.pos, a.parts).parts, AbsPath(u, b.pos, b.parts).parts);
      }
    }
  }

  lemma OpaquePartNear(t: seq<char>, u: seq<char>, k: nat, p: nat, x: Parts, y: Parts)
    requires Near(t, u, k) && p <= k + 1
    ensures Alike(k, x, y, OpaquePart(t, p, x), OpaquePart(u, p, y))
  {
    hide Scan, Near, Starts, Step, Missed;
    StartsNear(NoSlash, t, u, k, p);
    MissedNear(NoSlash, t, u, k, p);
    if Starts(NoSlash, t, p) { ScanNear(Uric, t, u, k, Step(NoSlash, t, p)); }
  }

  lemma WithQueryNear(t: seq<char>, u: seq<char>, k: nat, p: nat, r: Parse, s: Parse, x: Parts, y: Parts)
    requires Near(t, u, k) && p <= k + 1 && Alike(k, x, y, r, s)
    requires (p <= |t| ==> Tame(t, p, r)) && (p <= |u| ==> Tame(u, p, s))
    ensures Alike(k, x, y, WithQuery(t, p, r), WithQuery(u, p, s))
  {
    hide Scan, Near;
    IsNear(t, u, k, r.pos, '?');
    if Is(t, r.pos, '?') { ScanNear(Uric, t, u, k, r.pos + 1); }
  }

  lemma HierNear(t: seq<char>, u: seq<char>, k: nat, p: nat, x: Parts, y: Parts)
    requires Near(t, u, k) && p <= k + 1
    ensures Alike(k, x, y, HierPart(t, p, x), HierPart(u, p, y))
    ensures Alike(k, x, y, RelativeUri(t, p, x), RelativeUri(u, p, y))
  {
    var n, m := NetPath(t, p, x), NetPath(u, p, y);
    var a := if n.ok then n else AbsPath(t, p, n.parts);
    var b := if m.ok then m else AbsPath(u, p, m.parts);
    assert Alike(k, x, y, a, b) by {
      hide NetPath, AbsPath, Near;
      NetPathNear(t, u, k, p, x, y);
      AbsPathNear(t, u, k, p, n.parts, m.parts);
    }
    var c := if a.ok then a else RelPath(t, p, a.parts);
    var d := if b.ok then b else RelPath(u, p, b.parts);
    assert Alike(k, x, y, c, d) by {
      hide NetPath, AbsPath, RelPath, Near;
      RelPathNear(t, u, k, p, a.parts, b.parts);
    }
    hide NetPath, AbsPath, RelPath, Near, Alike, WithQuery;
    WithQueryNear(t, u, k, p, a, b, x, y);
    WithQueryNear(t, u, k, p, c, d, x, y);
  }

  lemma AbsoluteNear(t: seq<char>, u: seq<char>, k: nat, p: nat, x: Parts, y: Parts)
    requires Near(t, u, k) && p <= k + 1
    ensures Alike(k, x, y, AbsoluteUri(t, p, x), AbsoluteUri(u, p, y))
  {
    hide Scheme, HierPart, OpaquePart, Near, Alike, Is, Tame;
    var s, z := Scheme(t, p, x), Scheme(u, p, y);
    SchemeNear(t, u, k, p, x, y);
    AlikeIs(k, x, y, s, z);
    IsNear(t, u, k, s.pos, ':');
    AlikeFailure(k, p, x, y, s, z);
    if s.ok && Is(t, s.pos, ':') {
      AfterColon(t, u, k, s.pos + 1, x, y, s, z);
      AlikeFailure(k, p, x, y, OpaquePart(t, s.pos + 1, HierPart(t, s.pos + 1, s.parts).parts),
                   OpaquePart(u, s.pos + 1, HierPart(u, s.pos + 1, z.parts).parts));
    }
  }

  lemma AfterColon(t: seq<char>, u: seq<char>, k: nat, q: nat, x: Parts, y: Parts, s: Parse, z: Parse)
    requires Near(t, u, k) && q <= k + 1 && Alike(k, x, y, s, z)
    ensures var h, g := HierPart(t, q, s.parts), HierPart(u, q, z.parts);
      var o, e := OpaquePart(t, q, h.parts), OpaquePart(u, q, g.parts);
      h.ok == g.ok && o.ok == e.ok && Alike(k, x, y, h, g) && Alike(k, x, y, o, e)
  {
    hide *;
    var h, g := HierPart(t, q, s.parts), HierPart(u, q, z.parts);
    HierNear(t, u, k, q, s.parts, z.parts);
    AlikeIs(k, s.parts, z.parts, h, g);
    AlikeThen(k, x, y, s, z, h, g);
    OpaqueAfter(t, u, k, q, x, y, h, g);
  }

  lemma OpaqueAfter(t: seq<char>, u: seq<char>, k: nat, q: nat, x: Parts, y: Parts, h: Parse, g: Parse)
    requires Near(t, u, k) && q <= k + 1 && Alike(k, x, y, h, g)
    ensures var o, e := OpaquePart(t, q, h.parts), OpaquePart(u, q, g.parts); o.ok == e.ok && Alike(k, x, y, o, e)
  {
    hide *;
    var o, e := OpaquePart(t, q, h.parts), OpaquePart(u, q, g.parts);
    OpaquePartNear(t, u, k, q, h.parts, g.parts);
    AlikeIs(k, h.parts, g.parts, o, e);
    AlikeThen(k, x, y, h, g, o, e);
  }

  lemma FragmentNear(t: seq<char>, u: seq<char>, k: nat, p: nat, x: Parts, y: Parts)
    requires Near(t, u, k) && p <= k + 1
    ensures Alike(k, x, y, Fragment(t, p, x), Fragment(u, p, y))
  {
    hide Scan, Near;
    ScanNear(Uric, t, u, k, p);
  }

  /** The answer to a URI reference in front of a line break is settled by the
      text up to that line break. */
  lemma ReferenceNear(t: seq<char>, u: seq<char>, k: nat, p: nat, x: Parts, y: Parts)
    requires Near(t, u, k) && p <= k + 1
    ensures Alike(k, x, y, UriReference(t, p, x), UriReference(u, p, y))
  {
    hide AbsoluteUri, RelativeUri, Near, Alike, Fragment, Is, Tame;
    var a, b := AbsoluteUri(t, p, x), AbsoluteUri(u, p, y);
    var r := if a.ok then a else RelativeUri(t, p, a.parts);
    var s := if b.ok then b else RelativeUri(u, p, b.parts);
    EitherNear(t, u, k, p, x, y);
    AlikeIs(k, x, y, r, s);
    IsNear(t, u, k, r.pos, '#');
    AlikeFailure(k, p, x, y, r, s);
    if Is(t, r.pos, '#') {
      FragmentNear(t, u, k, r.pos + 1, r.parts, s.parts);
      AlikeThen(k, x, y, r, s, Fragment(t, r.pos + 1, r.parts), Fragment(u, s.pos + 1, s.parts));
    }
  }

  lemma EitherNear(t: seq<char>, u: seq<char>, k: nat, p: nat, x: Parts, y: Parts)
    requires Near(t, u, k) && p <= k + 1
    ensures var a, b := AbsoluteUri(t, p, x), AbsoluteUri(u, p, y);
      Alike(k, x, y, if a.ok then a else RelativeUri(t, p, a.parts), if b.ok then b else RelativeUri(u, p, b.parts))
  {
    hide AbsoluteUri, RelativeUri, Near, Alike, Tame;
    var a, b := AbsoluteUri(t, p, x), AbsoluteUri(u, p, y);
    AbsoluteNear(t, u, k, p, x, y);
    AlikeIs(k, x, y, a, b);
    if !a.ok {
      HierNear(t, u, k, p, a.parts, b.parts);
      AlikeThen(k, x, y, a, b, RelativeUri(t, p, a.parts), RelativeUri(u, p, b.parts));
    }
  }
}
