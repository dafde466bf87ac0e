/** The grammar functions of the RFC 2396 parser, as functions of the text, the
    position and the components found so far.

    After a `%` escape the code steps once more, so the byte behind an escape
    is taken without being looked at. */
module UriGrammar {
  import opened Cursor

  // ------------------------------------------------------------ characters

  predicate Digit(c: char) { '0' <= c <= '9' }
  predicate Alpha(c: char) { 'a' <= c <= 'z' || 'A' <= c <= 'Z' }
  predicate Alphanum(c: char) { Alpha(c) || Digit(c) }
  predicate Hex(c: char) { Digit(c) || 'A' <= c <= 'F' || 'a' <= c <= 'f' }
  predicate Unreserved(c: char) { Alphanum(c) || c in "-_.!~*'()" }
  predicate Reserved(c: char) { c in ";/?:@&=+$," }

  datatype Class = Uric | Pchar | Userinfo | RelSegment | NoSlash | PathChar | SchemeChar | Label | Number

  predicate In(cls: Class, c: char) {
    match cls
    case Uric => Unreserved(c) || Reserved(c)
    case Pchar => Unreserved(c) || c in ":@&=+$,"
    case Userinfo => Unreserved(c) || c in ";:&=+$,"
    case RelSegment => Unreserved(c) || c in ";@&=+$,"
    case NoSlash => Unreserved(c) || c in ";?:@&=+$,"
    case PathChar => Unreserved(c) || c in ":@&=+$,;/"
    case SchemeChar => Alphanum(c) || c in "+-."
    case Label => Alphanum(c) || c == '-'
    case Number => Digit(c)
  }

  /** Classes in which a `%` escape counts as a character. */
  predicate Escapes(cls: Class) { !cls.SchemeChar? && !cls.Label? && !cls.Number? }

  predicate IsEscape(t: seq<char>, p: nat) {
    p + 2 < |t| && t[p] == '%' && Hex(t[p + 1]) && Hex(t[p + 2])
  }

  /** The scan loops over a class see a character of it at `p`. */
  predicate Starts(cls: Class, t: seq<char>, p: nat) {
    (p < |t| && In(cls, t[p])) || (Escapes(cls) && IsEscape(t, p))
  }

  /** Where the loop stands after that character. */
  function Step(cls: Class, t: seq<char>, p: nat): (q: nat)
    requires Starts(cls, t, p)
    ensures p < q <= |t|
  {
    if In(cls, t[p]) then p + 1 else Next(t, p + 3)
  }

  /** A '%' that ends the text: no escape, but testing for one leaves the
      cursor behind it. */
  predicate Dangling(cls: Class, t: seq<char>, p: nat) { Escapes(cls) && p + 1 == |t| && t[p] == '%' }

  /** Where the cursor is left by a test for a class that fails. */
  function Missed(cls: Class, t: seq<char>, p: nat): (q: nat)
    ensures p <= q && (p <= |t| ==> q <= |t|)
  {
    if Dangling(cls, t, p) then |t| else p
  }

  function Scan(cls: Class, t: seq<char>, p: nat): (q: nat)
    ensures p <= q && (p <= |t| ==> q <= |t|)
    decreases |t| - p
  {
    if Starts(cls, t, p) then Scan(cls, t, Step(cls, t, p)) else Missed(cls, t, p)
  }

  // ------------------------------------------------------------ components

  /** A component: not set, or the bytes from `lo` to `hi`. */
  datatype Slice = Unset | Slice(lo: nat, hi: nat)

  datatype Parts = Parts(scheme: Slice, authority: Slice, userinfo: Slice, host: Slice, port: Slice,
                         netPath: Slice, absPath: Slice, relPath: Slice, opaquePart: Slice,
                         query: Slice, fragment: Slice)

  const NO_PARTS := Parts(Unset, Unset, Unset, Unset, Unset, Unset, Unset, Unset, Unset, Unset, Unset)

  datatype Parse = Parse(ok: bool, pos: nat, parts: Parts)

  /** The cursor stays in the text, and a function that fails puts it back. */
  predicate Tame(t: seq<char>, p: nat, r: Parse) {
    p <= r.pos <= |t| && (!r.ok ==> r.pos == p)
  }

  // --------------------------------------------------------------- grammar

  function ParamsEnd(t: seq<char>, p: nat): (q: nat)
    ensures p <= q && (p <= |t| ==> q <= |t|)
    decreases |t| - p
  {
    if Is(t, p, ';') then ParamsEnd(t, Scan(Pchar, t, p + 1)) else p
  }

  function SegmentEnd(t: seq<char>, p: nat): (q: nat)
    ensures p <= q && (p <= |t| ==> q <= |t|)
  {
    ParamsEnd(t, Scan(Pchar, t, p))
  }

  function PathEnd(t: seq<char>, p: nat): (q: nat)
    ensures p <= q && (p <= |t| ==> q <= |t|)
    decreases |t| - p
  {
    var e := SegmentEnd(t, p);
    if Is(t, e, '/') then PathEnd(t, e + 1) else e
  }

  function AbsPath(t: seq<char>, p: nat, parts: Parts): (r: Parse)
    ensures p <= |t| ==> Tame(t, p, r)
  {
    if Is(t, p, '/') then
      var e := PathEnd(t, p + 1);
      Parse(true, e, parts.(absPath := Slice(p, e)))
    else Parse(false, p, parts)
  }

  function RelPath(t: seq<char>, p: nat, parts: Parts): (r: Parse)
    ensures p <= |t| ==> Tame(t, p, r)
  {
    if Starts(RelSegment, t, p) then
      var r := AbsPath(t, Scan(RelSegment, t, p), parts);
      Parse(true, r.pos, r.parts.(relPath := Slice(p, r.pos)))
    else Parse(false, p, parts)
  }

  function Scheme(t: seq<char>, p: nat, parts: Parts): (r: Parse)
    ensures p <= |t| ==> Tame(t, p, r)
  {
    if Alpha(CharAt(t, p)) then
      var e := Scan(SchemeChar, t, p);
      Parse(true, e, parts.(scheme := Slice(p, e)))
    else Parse(false, p, parts)
  }

  /** A label and where it ends; a label that ends the text may end in '-'. */
  predicate LabelOk(t: seq<char>, p: nat, top: bool) {
    var c := CharAt(t, p);
    var e := Scan(Label, t, p);
    (if top then Alpha(c) else Alphanum(c)) && (e == |t| || t[e - 1] != '-')
  }

  /** The start of the last label the label loop accepts. */
  function LastLabel(t: seq<char>, p: nat, last: nat): (q: nat)
    ensures q == last || p <= q < |t|
    decreases |t| - p
  {
    if !LabelOk(t, p, false) then last
    else
      var e := Scan(Label, t, p);
      if Is(t, e, '.') then LastLabel(t, e + 1, p) else p
  }

  function Hostname(t: seq<char>, p: nat): (r: (bool, nat))
    ensures p <= |t| ==> p <= r.1 <= |t|
    ensures !r.0 ==> r.1 == p
  {
    var l := LastLabel(t, p, p);
    if LabelOk(t, l, true) then
      var e := Scan(Label, t, l);
      (true, if Is(t, e, '.') then e + 1 else e)
    else (false, p)
  }

  /** The numbers from the i-th on; a one-digit number that ends the text is
      not counted. */
  function Numbers(t: seq<char>, p: nat, i: nat): (r: (bool, nat))
    requires i < 4
    ensures r.0 ==> p <= r.1 <= |t|
    decreases 4 - i
  {
    if Digit(CharAt(t, p)) && HasNext(t, p) then
      var e := Scan(Number, t, p + 1);
      if i == 3 then (true, e)
      else if Is(t, e, '.') then Numbers(t, e + 1, i + 1)
      else (false, e)
    else (false, p)
  }

  function Host(t: seq<char>, p: nat, parts: Parts): (r: Parse)
    ensures p <= |t| ==> Tame(t, p, r)
  {
    var h := Hostname(t, p);
    if h.0 then Parse(true, h.1, parts.(host := Slice(p, h.1)))
    else
      var v := Numbers(t, p, 0);
      if v.0 then Parse(true, v.1, parts.(host := Slice(p, v.1)))
      else Parse(false, p, parts)
  }

  function Port(t: seq<char>, p: nat, parts: Parts): (r: Parse)
    ensures p <= |t| ==> Tame(t, p, r)
  {
    var e := Scan(Number, t, p);
    if e > p then Parse(true, e, parts.(port := Slice(p, e))) else Parse(false, p, parts)
  }

  function Hostport(t: seq<char>, p: nat, parts: Parts): (r: Parse)
    ensures p <= |t| ==> Tame(t, p, r)
  {
    var h := Host(t, p, parts);
    if !h.ok then Parse(false, p, h.parts)
    else if Is(t, h.pos, ':') then
      var q := Port(t, h.pos + 1, h.parts);
      Parse(true, q.pos, q.parts)
    else h
  }

  /** Always succeeds, with an empty authority when there is no host. */
  function Authority(t: seq<char>, p: nat, parts: Parts): (r: Parse)
    ensures r.ok
    ensures p <= |t| ==> Tame(t, p, r)
  {
    var e := Scan(Userinfo, t, p);
    var isUserinfo := Is(t, e, '@');
    var parts1 := if isUserinfo then parts.(userinfo := Slice(p, e)) else parts;
    var h := Hostport(t, if isUserinfo then e + 1 else p, parts1);
    var pos := if h.ok then h.pos else p;
    var parts2 := if h.ok then h.parts else h.parts.(userinfo := Unset);
    Parse(true, pos, parts2.(authority := Slice(p, pos)))
  }

  function NetPath(t: seq<char>, p: nat, parts: Parts): (r: Parse)
    ensures p <= |t| ==> Tame(t, p, r)
  {
    if Is(t, p, '/') && Is(t, p + 1, '/') then
      var a := Authority(t, p + 2, parts);
      var r := AbsPath(t, a.pos, a.parts);
      Parse(true, r.pos, r.parts.(netPath := Slice(p, r.pos)))
    else Parse(false, p, parts)
  }

  /** Leaves the cursor where a failed test for its first character does. */
  function OpaquePart(t: seq<char>, p: nat, parts: Parts): (r: Parse)
    ensures p <= |t| ==> p <= r.pos <= |t|
    ensures !r.ok ==> r.pos == Missed(NoSlash, t, p) && r.parts == parts
  {
    if Starts(NoSlash, t, p) then
      var e := Scan(Uric, t, Step(NoSlash, t, p));
      Parse(true, e, parts.(opaquePart := Slice(p, e)))
    else Parse(false, Missed(NoSlash, t, p), parts)
  }

  function Query(t: seq<char>, p: nat, parts: Parts): (r: Parse)
    ensures p <= |t| ==> Tame(t, p, r)
  {
    var e := Scan(Uric, t, p);
    Parse(true, e, parts.(query := Slice(p, e)))
  }

  function Fragment(t: seq<char>, p: nat, parts: Parts): (r: Parse)
    ensures p <= |t| ==> Tame(t, p, r)
  {
    var e := Scan(Uric, t, p);
    Parse(true, e, parts.(fragment := Slice(p, e)))
  }

  /** The query is read, and stays set, even when no path came before it. */
  function WithQuery(t: seq<char>, p: nat, r: Parse): (w: Parse)
    requires p <= |t| ==> Tame(t, p, r)
    ensures p <= |t| ==> Tame(t, p, w)
  {
    var q := if Is(t, r.pos, '?') then Query(t, r.pos + 1, r.parts) else r;
    if r.ok then Parse(true, q.pos, q.parts) else Parse(false, p, q.parts)
  }

  function HierPart(t: seq<char>, p: nat, parts: Parts): (r: Parse)
    ensures p <= |t| ==> Tame(t, p, r)
  {
    var n := NetPath(t, p, parts);
    WithQuery(t, p, if n.ok then n else AbsPath(t, p, n.parts))
  }

  function RelativeUri(t: seq<char>, p: nat, parts: Parts): (r: Parse)
    ensures p <= |t| ==> Tame(t, p, r)
  {
    var n := NetPath(t, p, parts);
    var a := if n.ok then n else AbsPath(t, p, n.parts);
    WithQuery(t, p, if a.ok then a else RelPath(t, p, a.parts))
  }

  function AbsoluteUri(t: seq<char>, p: nat, parts: Parts): (r: Parse)
    ensures p <= |t| ==> Tame(t, p, r)
  {
    var s := Scheme(t, p, parts);
    if !s.ok then Parse(false, p, s.parts)
    else if !Is(t, s.pos, ':') then Parse(false, p, s.parts.(scheme := Unset))
    else
      var h := HierPart(t, s.pos + 1, s.parts);
      if h.ok then h
      else
        var o := OpaquePart(t, s.pos + 1, h.parts);
        if o.ok then o else Parse(false, p, o.parts)
  }

  function UriReference(t: seq<char>, p: nat, parts: Parts): (r: Parse)
    ensures p <= |t| ==> Tame(t, p, r)
  {
    var a := AbsoluteUri(t, p, parts);
    var r := if a.ok then a else RelativeUri(t, p, a.parts);
    if Is(t, r.pos, '#') then Fragment(t, r.pos + 1, r.parts)
    else if r.ok then r
    else Parse(false, p, r.parts)
  }

  // ------------------------------------------------------ cursor theorems

  /** A network path is "//", the authority and, when there is one, the
      absolute path, each slice beginning where the one before it ends. */
  lemma NetPathIsAdjacent(t: seq<char>, p: nat, parts: Parts)
    requires p <= |t| && parts.absPath.Unset? && NetPath(t, p, parts).ok
    ensures var r := NetPath(t, p, parts);
      && r.parts.netPath == Slice(p, r.pos) && p + 2 <= |t| && t[p] == t[p + 1] == '/'
      && r.parts.authority.Slice? && r.parts.authority.lo == p + 2
      && (if r.parts.absPath.Slice? then
            r.parts.absPath == Slice(r.parts.authority.hi, r.pos) && Is(t, r.parts.authority.hi, '/')
          else r.parts.authority.hi == r.pos && !Is(t, r.pos, '/'))
      && r.parts.authority.hi <= r.pos <= |t|
      && t[p..r.pos] == "//" + t[p + 2..r.parts.authority.hi] + t[r.parts.authority.hi..r.pos]
  {
    var a := Authority(t, p + 2, parts);
    AuthorityLeavesPath(t, p + 2, parts);
    hide Authority, PathEnd;
    Pieces(t, p, a.pos, NetPath(t, p, parts).pos);
  }

  lemma Pieces(t: seq<char>, p: nat, m: nat, e: nat)
    requires p + 2 <= m <= e <= |t| && t[p] == t[p + 1] == '/'
    ensures t[p..e] == "//" + t[p + 2..m] + t[m..e]
  {
  }

  lemma AuthorityLeavesPath(t: seq<char>, p: nat, parts: Parts)
    ensures Authority(t, p, parts).parts.absPath == parts.absPath
  {
  }
}
