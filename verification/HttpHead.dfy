/** The request head: request line, header lines, and the entry point that is
    tried again whenever the receive buffer has grown (RFC 2616). */
module HttpHead {
  import opened Options
  import opened Chunks
  import opened Cursor
  import opened UriGrammar
  import opened UriLocality
  import opened HttpTables
  import opened HttpLines

  function Upper(c: char): char { if 'a' <= c <= 'z' then c - 32 as char else c }

  /** How many characters of the word the text at `p` starts with, in any case. */
  function Common(word: seq<char>, t: seq<char>, p: nat): (n: nat)
    ensures n <= |word| && (n > 0 ==> p + n <= |t|)
    decreases |word|
  {
    if word != [] && p < |t| && Upper(t[p]) == word[0] then 1 + Common(word[1..], t, p + 1) else 0
  }

  predicate Spells(word: seq<char>, t: seq<char>, p: nat) { Common(word, t, p) == |word| }

  datatype Match = Match(verb: nat, pos: nat)

  /** The method loop: the characters a table entry shares with the text stay
      consumed when the next entry is tried. */
  function MatchIn(table: seq<seq<char>>, t: seq<char>, p: nat, i: nat): Option<Match>
    requires i <= |table|
    decreases |table| - i
  {
    if i == |table| then None
    else
      var n := Common(table[i], t, p);
      if n == |table[i]| then Some(Match(i, p + n)) else MatchIn(table, t, p + n, i + 1)
  }

  function MethodAt(t: seq<char>, p: nat): Option<Match> { MatchIn(METHODS, t, p, 0) }

  lemma {:induction false} CommonStays(word: seq<char>, t: seq<char>, p: nat, k: nat)
    requires p <= k && IsCrlf(t, k) && '\r' !in word
    ensures p + Common(word, t, p) <= k
    decreases |word|
  {
    if word != [] && Upper(t[p]) == word[0] { CommonStays(word[1..], t, p + 1, k); }
  }

  lemma {:induction false} MatchStays(table: seq<seq<char>>, t: seq<char>, p: nat, i: nat, k: nat)
    requires i <= |table| && p <= k && IsCrlf(t, k) && forall j :: 0 <= j < |table| ==> '\r' !in table[j]
    ensures MatchIn(table, t, p, i).Some? ==> p <= MatchIn(table, t, p, i).value.pos <= k
    decreases |table| - i
  {
    if i < |table| {
      var n := Common(table[i], t, p);
      CommonStays(table[i], t, p, k);
      if n != |table[i]| { MatchStays(table, t, p + n, i + 1, k); }
    }
  }

  /** The method ends in front of the line break. */
  lemma MethodStays(t: seq<char>, p: nat, k: nat)
    requires p <= k && IsCrlf(t, k)
    ensures MethodAt(t, p).Some? ==> p <= MethodAt(t, p).value.pos <= k
  {
    MatchStays(METHODS, t, p, 0, k);
  }

  datatype Version = Version(major: nat, minor: nat, pos: nat)

  /** The longest digit string the version buffer takes. */
  const MAX_DIGITS := 49

  function Value(s: seq<char>): nat {
    if s == [] || !Digit(s[|s| - 1]) then 0
    else 10 * Value(s[..|s| - 1]) + (s[|s| - 1] as nat - '0' as nat)
  }

  function NumberAt(t: seq<char>, lo: nat, hi: nat): nat
    requires lo <= hi <= |t|
  {
    Value(t[lo..if hi - lo > MAX_DIGITS then lo + MAX_DIGITS else hi])
  }

  /** Two numbers with a '.' between them. */
  function VersionNumbers(t: seq<char>, a: nat): (v: Option<Version>)
    requires a <= |t|
    ensures v.Some? ==> a < v.value.pos <= |t|
  {
    var b := Scan(Number, t, a);
    if a == b || !Is(t, b, '.') then None
    else
      var c := Scan(Number, t, b + 1);
      if c == b + 1 then None else Some(Version(NumberAt(t, a, b), NumberAt(t, b + 1, c), c))
  }

  function HttpVersion(t: seq<char>, p: nat): (v: Option<Version>)
    requires p <= |t|
    ensures v.Some? ==> p < v.value.pos <= |t|
  {
    if Spells("HTTP/", t, p) then VersionNumbers(t, p + 5) else None
  }

  /** The request line and the header slots of the struct. */
  datatype Head = Head(verb: nat, uri: Slice, parts: Parts, major: nat, minor: nat, header: map<nat, Slice>)

  const FRESH := Head(0, Unset, NO_PARTS, 0, 0, map[])

  datatype Attempt = Attempt(ok: bool, pos: nat, head: Head)

  /** The URI is parsed in the rest of the buffer; its components are slices of that rest. */
  function RequestUri(t: seq<char>, p: nat, h: Head): (r: Attempt)
    requires p < |t|
    ensures p <= r.pos <= |t|
  {
    var r := UriReference(t[p..], 0, h.parts);
    if r.ok then Attempt(true, p + r.pos, h.(uri := Slice(p, p + r.pos), parts := r.parts))
    else Attempt(false, p, h.(uri := Slice(p, |t|), parts := r.parts))
  }

  /** The rest of the request line behind its URI. */
  function VersionPart(t: seq<char>, u: Attempt): Attempt
    requires u.pos <= |t|
  {
    if !u.ok || !Is(t, u.pos, ' ') then Attempt(false, u.pos, u.head)
    else
      match HttpVersion(t, u.pos + 1)
      case None => Attempt(false, u.pos, u.head)
      case Some(v) =>
        var h := u.head.(major := v.major, minor := v.minor);
        if IsCrlf(t, v.pos) then Attempt(true, v.pos + 2, h) else Attempt(false, u.pos, h)
  }

  function RequestLine(t: seq<char>, p: nat, h: Head): Attempt
    requires FindCrlf(t, p).Some?
  {
    match MethodAt(t, p)
    case None => Attempt(false, p, h)
    case Some(m) =>
      MethodStays(t, p, FindCrlf(t, p).value);
      var h1 := h.(verb := m.verb);
      if !Is(t, m.pos, ' ') then Attempt(false, p, h1)
      else
        var r := VersionPart(t, RequestUri(t, m.pos + 1, h1));
        if r.ok then r else Attempt(false, p, r.head)
  }

  function Request(t: seq<char>, h: Head): Attempt
    requires FindCrlf(t, 0).Some?
  {
    var l := RequestLine(t, 0, h);
    if !l.ok then l
    else
      var b := Lines(t, l.pos, l.head.header);
      Attempt(b.ok, b.pos, l.head.(header := b.header))
  }

  /** The entry point: two line breaks must have arrived before the buffer is
      parsed from its beginning. */
  function ParseHead(t: seq<char>, p: nat, h: Head): (r: Attempt)
    ensures !r.ok ==> r.pos == p
  {
    match FindCrlf(t, p)
    case None => Attempt(false, p, h)
    case Some(k) =>
      if FindCrlf(t, k + 2).None? then Attempt(false, p, h)
      else
        FindCrlfIsFirst(t, 0, k);
        var r := Request(t, h);
        if r.ok then r else Attempt(false, p, r.head)
  }

  // ---------------------------------------------------------------- methods

  lemma {:induction false} CommonStops(word: seq<char>, t: seq<char>, p: nat)
    requires word != [] && (p >= |t| || Upper(t[p]) != word[0])
    ensures Common(word, t, p) == 0
  {
  }

  lemma {:induction false} CommonAt(word: seq<char>, t: seq<char>, p: nat, i: nat)
    requires i < Common(word, t, p)
    ensures p + i < |t| && Upper(t[p + i]) == word[i]
    decreases i
  {
    if i > 0 { CommonAt(word[1..], t, p + 1, i - 1); }
  }

  /** No entry from the i-th on starts with the character at `p`. */
  lemma {:induction false} NoMatchFrom(table: seq<seq<char>>, t: seq<char>, p: nat, i: nat)
    requires i <= |table|
    requires forall j :: i <= j < |table| ==> table[j] != [] && (p >= |t| || Upper(t[p]) != table[j][0])
    ensures MatchIn(table, t, p, i).None?
    decreases |table| - i
  {
    if i < |table| {
      CommonStops(table[i], t, p);
      NoMatchFrom(table, t, p, i + 1);
    }
  }

  /** Entries with another first letter are passed over. */
  lemma {:induction false} SkipTo(table: seq<seq<char>>, t: seq<char>, p: nat, i: nat, j: nat)
    requires i <= j < |table| && p < |t|
    requires forall k :: i <= k < j ==> table[k] != [] && table[k][0] != Upper(t[p])
    ensures MatchIn(table, t, p, i) == MatchIn(table, t, p, j)
    decreases j - i
  {
    if i < j {
      CommonStops(table[i], t, p);
      SkipTo(table, t, p, i + 1, j);
    }
  }

  /** What matters about the method table: only POST and PUT share a first letter. */
  predicate OnlyPutClashes(table: seq<seq<char>>) {
    && |table| == 8 && (forall k :: 0 <= k < 8 ==> table[k] != [])
    && (forall i, k :: 0 <= k < i < 8 && i != METHOD_PUT ==> table[k][0] != table[i][0])
    && (forall k :: 0 <= k < 3 ==> table[k][0] != 'P') && (forall k :: METHOD_PUT <= k < 8 ==> table[k][0] != 'U')
    && table[3] == ['P'] + "OST" && table[METHOD_PUT] == "PUT" && table[5] == "DELETE"
  }

  lemma MethodTable()
    ensures OnlyPutClashes(METHODS)
  {
  }

  /** Entries no earlier entry shares a first letter with are recognised. */
  lemma MatchedAtOnce(table: seq<seq<char>>, t: seq<char>, p: nat, i: nat)
    requires i < |table| && Spells(table[i], t, p) && table[i] != []
    requires forall k :: 0 <= k < i ==> table[k] != [] && table[k][0] != table[i][0]
    ensures MatchIn(table, t, p, 0) == Some(Match(i, p + |table[i]|))
  {
    CommonAt(table[i], t, p, 0);
    SkipTo(table, t, p, 0, i);
  }

  lemma MatchIff(table: seq<seq<char>>, t: seq<char>, p: nat, i: nat)
    requires OnlyPutClashes(table) && i < |table| && Spells(table[i], t, p)
    ensures MatchIn(table, t, p, 0) == if i == METHOD_PUT then None else Some(Match(i, p + |table[i]|))
  {
    if i != METHOD_PUT {
      MatchedAtOnce(table, t, p, i);
    } else {
      CommonAt(table[i], t, p, 0);
      CommonAt(table[i], t, p, 1);
      PutIsLost(table, t, p);
    }
  }

  /** Every method of the table is recognised at the start of a request, in any
      case and whatever follows it, except PUT, which never is. */
  lemma MethodIff(t: seq<char>, p: nat, i: nat)
    requires i < |METHODS| && Spells(METHODS[i], t, p)
    ensures MethodAt(t, p) == if i == METHOD_PUT then None else Some(Match(i, p + |METHODS[i]|))
  {
    hide OnlyPutClashes, Spells, MatchIn, Common;
    MethodTable();
    MatchIff(METHODS, t, p, i);
  }

  /** The entry before PUT takes its first letter along. */
  lemma PutIsLost(table: seq<seq<char>>, t: seq<char>, p: nat)
    requires p + 1 < |t| && Upper(t[p]) == 'P' && Upper(t[p + 1]) == 'U'
    requires |table| > 4 && table[3] == ['P'] + "OST"
    requires forall k :: 0 <= k < 3 ==> table[k] != [] && table[k][0] != 'P'
    requires forall k :: 4 <= k < |table| ==> table[k] != [] && table[k][0] != 'U'
    ensures MatchIn(table, t, p, 0).None?
  {
    SkipTo(table, t, p, 0, 3);
    assert table[3][1..] == "OST";
    CommonStops("OST", t, p + 1);
    assert Common(table[3], t, p) == 1;
    NoMatchFrom(table, t, p + 1, 4);
  }

  /** What is accepted ends in the method's name, but need not begin with it. */
  lemma {:induction false} AcceptedEndsInName(table: seq<seq<char>>, t: seq<char>, p: nat, i: nat)
    requires i <= |table| && MatchIn(table, t, p, i).Some?
    ensures var m := MatchIn(table, t, p, i).value;
      && i <= m.verb < |table| && p + |table[m.verb]| <= m.pos
      && Spells(table[m.verb], t, m.pos - |table[m.verb]|)
    decreases |table| - i
  {
    var n := Common(table[i], t, p);
    if n != |table[i]| { AcceptedEndsInName(table, t, p + n, i + 1); }
  }

  /** An accepted method is genuine exactly when the text starts with its first
      letter and it is not PUT: then nothing stray stands in front of the name. */
  lemma MatchIsGenuineIff(table: seq<seq<char>>, t: seq<char>, p: nat)
    requires OnlyPutClashes(table) && MatchIn(table, t, p, 0).Some?
    ensures var m := MatchIn(table, t, p, 0).value;
      && m.verb < |table| && p < |t|
      && (m.pos == p + |table[m.verb]| <==> m.verb != METHOD_PUT && Upper(t[p]) == table[m.verb][0])
      && (m.pos == p + |table[m.verb]| ==> Spells(table[m.verb], t, p))
  {
    var m := MatchIn(table, t, p, 0).value;
    AcceptedEndsInName(table, t, p, 0);
    var name := table[m.verb];
    assert p < |t|;
    hide OnlyPutClashes, MatchIn;
    if m.pos == p + |name| {
      MatchIff(table, t, p, m.verb);
      FirstLetter(table, t, p, m.verb);
    } else if m.verb != METHOD_PUT && Upper(t[p]) == name[0] {
      FoundAtOnce(table, t, p, m.verb);
    }
  }

  lemma FirstLetter(table: seq<seq<char>>, t: seq<char>, p: nat, i: nat)
    requires OnlyPutClashes(table) && i < |table| && Spells(table[i], t, p)
    ensures p < |t| && Upper(t[p]) == table[i][0]
  {
    CommonAt(table[i], t, p, 0);
  }

  lemma FoundAtOnce(table: seq<seq<char>>, t: seq<char>, p: nat, i: nat)
    requires OnlyPutClashes(table) && i < |table| && i != METHOD_PUT && p < |t| && Upper(t[p]) == table[i][0]
    requires MatchIn(table, t, p, 0).Some? && MatchIn(table, t, p, 0).value.verb == i
    ensures MatchIn(table, t, p, 0).value.pos == p + |table[i]|
  {
    SkipTo(table, t, p, 0, i);
    var n := Common(table[i], t, p);
    if n != |table[i]| { AcceptedEndsInName(table, t, p + n, i + 1); }
  }

  /** For every text: what is accepted as a method is genuine, that is, stands
      at the start of the text, exactly when the text starts with the method's
      first letter and the method is not PUT. */
  lemma AcceptedIsGenuineIff(t: seq<char>, p: nat)
    requires MethodAt(t, p).Some?
    ensures var m := MethodAt(t, p).value;
      && m.verb < |METHODS| && p < |t|
      && (m.pos == p + |METHODS[m.verb]| <==> m.verb != METHOD_PUT && Upper(t[p]) == METHODS[m.verb][0])
  {
    hide OnlyPutClashes, MatchIn;
    MethodTable();
    MatchIsGenuineIff(METHODS, t, p);
  }

  /** A genuine method is accepted at `p` exactly when the text spells one there
      that is not PUT. */
  lemma GenuineMethodIff(t: seq<char>, p: nat, i: nat)
    requires i < |METHODS|
    ensures MethodAt(t, p) == Some(Match(i, p + |METHODS[i]|)) <==> i != METHOD_PUT && Spells(METHODS[i], t, p)
  {
    hide OnlyPutClashes, MatchIn, Spells;
    MethodTable();
    if Spells(METHODS[i], t, p) { MethodIff(t, p, i); }
    if MethodAt(t, p) == Some(Match(i, p + |METHODS[i]|)) { MatchIsGenuineIff(METHODS, t, p); }
  }

  /** PUT is accepted only behind letters that the entry before it, POST, has
      taken. */
  lemma {:induction false} PutNeedsAStray(table: seq<seq<char>>, t: seq<char>, p: nat, i: nat) returns (q: nat)
    requires OnlyPutClashes(table) && i <= 3
    requires MatchIn(table, t, p, i).Some? && MatchIn(table, t, p, i).value.verb == METHOD_PUT
    ensures var m := MatchIn(table, t, p, i).value;
      p <= q && 0 < Common(table[3], t, q) < 4 && m.pos == q + Common(table[3], t, q) + 3
    decreases 3 - i
  {
    var n := Common(table[i], t, p);
    if i < 3 {
      q := PutNeedsAStray(table, t, p + n, i + 1);
    } else {
      q := p;
      PutBehind(table, t, p + n);
      CommonAt(table[METHOD_PUT], t, p + n, 0);
    }
  }

  lemma PutBehind(table: seq<seq<char>>, t: seq<char>, p: nat)
    requires OnlyPutClashes(table)
    requires MatchIn(table, t, p, METHOD_PUT).Some? && MatchIn(table, t, p, METHOD_PUT).value.verb == METHOD_PUT
    ensures Spells(table[METHOD_PUT], t, p) && MatchIn(table, t, p, METHOD_PUT).value.pos == p + 3
  {
    var n := Common(table[METHOD_PUT], t, p);
    if n != 3 { AcceptedEndsInName(table, t, p + n, METHOD_PUT + 1); }
  }

  /** "PPUT" is taken for PUT. */
  lemma StrayPutIsAccepted()
    ensures MethodAt("PPUT", 0) == Some(Match(METHOD_PUT, 4))
  {
    hide OnlyPutClashes, MatchIn;
    MethodTable();
    PutIn(METHODS, "PPUT");
  }

  lemma PutIn(table: seq<seq<char>>, t: seq<char>)
    requires OnlyPutClashes(table) && t == "PPUT"
    ensures MatchIn(table, t, 0, 0) == Some(Match(METHOD_PUT, 4))
  {
    SkipTo(table, t, 0, 0, 3);
    assert table[3][1..] == "OST";
    CommonStops("OST", t, 1);
    assert Common(table[3], t, 0) == 1;
    assert Common("T", t, 3) == 1;
    assert Common("UT", t, 2) == 2;
    assert Common("PUT", t, 1) == 3;
  }

  lemma StrayIn(table: seq<seq<char>>, t: seq<char>)
    requires OnlyPutClashes(table) && t == "PODELETE"
    ensures MatchIn(table, t, 0, 0) == Some(Match(5, 8))
  {
    SkipTo(table, t, 0, 0, 3);
    PodAfterPo(table, t);
    DeleteInside(t);
    SkipTo(table, t, 2, 4, 5);
  }

  /** "PODELETE" is taken for DELETE. */
  lemma StrayPrefixIsAccepted()
    ensures MethodAt("PODELETE", 0) == Some(Match(5, 8))
  {
    hide OnlyPutClashes, MatchIn;
    MethodTable();
    StrayIn(METHODS, "PODELETE");
  }

  lemma PodAfterPo(table: seq<seq<char>>, t: seq<char>)
    requires |table| > 4 && table[3] == ['P'] + "OST" && |t| > 2 && t[0] == 'P' && t[1] == 'O' && t[2] == 'D'
    ensures MatchIn(table, t, 0, 3) == MatchIn(table, t, 2, 4)
  {
    var word := table[3];
    assert word[1..] == "OST" && word[1..][1..] == "ST";
    CommonStops("ST", t, 2);
    assert Common(word[1..], t, 1) == 1;
    assert Common(word, t, 0) == 2;
  }

  lemma DeleteInside(t: seq<char>)
    requires t == "PODELETE"
    ensures Common("DELETE", t, 2) == 6
  {
    assert Common("E", t, 7) == 1;
    assert Common("TE", t, 6) == 2;
    assert Common("ETE", t, 5) == 3;
    assert Common("LETE", t, 4) == 4;
    assert Common("ELETE", t, 3) == 5;
  }

  // ------------------------------------------------------- growing buffers

  lemma {:induction false} CommonNear(word: seq<char>, t: seq<char>, u: seq<char>, p: nat, k: nat)
    requires t <= u && p <= k && IsCrlf(t, k) && '\r' !in word
    ensures Common(word, t, p) == Common(word, u, p)
    decreases |word|
  {
    assert t[p] == u[p];
    if word != [] && Upper(t[p]) == word[0] { CommonNear(word[1..], t, u, p + 1, k); }
  }

  lemma {:induction false} MatchNear(table: seq<seq<char>>, t: seq<char>, u: seq<char>, p: nat, i: nat, k: nat)
    requires t <= u && i <= |table| && p <= k && IsCrlf(t, k) && forall j :: 0 <= j < |table| ==> '\r' !in table[j]
    ensures MatchIn(table, t, p, i) == MatchIn(table, u, p, i)
    decreases |table| - i
  {
    if i < |table| {
      var n := Common(table[i], t, p);
      CommonNear(table[i], t, u, p, k);
      CommonStays(table[i], t, p, k);
      if n != |table[i]| { MatchNear(table, t, u, p + n, i + 1, k); }
    }
  }

  lemma MethodNear(t: seq<char>, u: seq<char>, p: nat, k: nat)
    requires t <= u && p <= k && IsCrlf(t, k)
    ensures MethodAt(t, p) == MethodAt(u, p)
  {
    MatchNear(METHODS, t, u, p, 0, k);
  }

  lemma PrefixIsNear(t: seq<char>, u: seq<char>, p: nat, k: nat)
    requires t <= u && p <= k && IsCrlf(t, k)
    ensures Near(t[p..], u[p..], k - p) && Near(t, u, k)
  {
    assert t[p..][..k - p + 2] == u[p..][..k - p + 2];
  }

  lemma NumbersAreNear(t: seq<char>, u: seq<char>, a: nat, k: nat)
    requires t <= u && a <= k && IsCrlf(t, k) && Near(t, u, k)
    ensures VersionNumbers(t, a) == VersionNumbers(u, a)
    ensures VersionNumbers(t, a).Some? ==> VersionNumbers(t, a).value.pos <= k + 1
  {
    hide Near, Scan, NumberAt, IsCrlf;
    var b := Scan(Number, t, a);
    ScanNear(Number, t, u, k, a);
    IsNear(t, u, k, b, '.');
    CrlfInText(t, k);
    SameNumber(t, u, a, b);
    if Is(t, b, '.') {
      ScanNear(Number, t, u, k, b + 1);
      SameNumber(t, u, b + 1, Scan(Number, t, b + 1));
    }
  }

  lemma CrlfInText(t: seq<char>, k: nat)
    requires IsCrlf(t, k)
    ensures k + 2 <= |t|
  {
  }

  lemma VersionNear(t: seq<char>, u: seq<char>, p: nat, k: nat)
    requires t <= u && p <= k && IsCrlf(t, k)
    ensures HttpVersion(t, p) == HttpVersion(u, p)
    ensures HttpVersion(t, p).Some? ==> HttpVersion(t, p).value.pos <= k + 1
  {
    var word := "HTTP/";
    CommonNear(word, t, u, p, k);
    CommonStays(word, t, p, k);
    PrefixIsNear(t, u, p, k);
    hide Near, Common, VersionNumbers, IsCrlf;
    if Spells(word, t, p) { NumbersAreNear(t, u, p + 5, k); }
  }

  lemma SameNumber(t: seq<char>, u: seq<char>, lo: nat, hi: nat)
    requires t <= u && lo <= hi <= |t|
    ensures NumberAt(t, lo, hi) == NumberAt(u, lo, hi)
  {
    var e := if hi - lo > MAX_DIGITS then lo + MAX_DIGITS else hi;
    assert t[lo..e] == u[lo..e];
  }

  /** Two attempts in front of the same line break: the same answer, and the
      same line when they succeed. */
  predicate SameLine(h: Head, g: Head, a: Attempt, b: Attempt) {
    && a.ok == b.ok && a.head.header == h.header && b.head.header == g.header
    && (a.ok ==>
          && a.pos == b.pos && a.head.verb == b.head.verb && a.head.uri == b.head.uri
          && a.head.major == b.head.major && a.head.minor == b.head.minor
          && Even(h.parts, g.parts, a.head.parts, b.head.parts))
  }

  /** The same for the URI, before the version is read. */
  predicate SameUri(k: nat, h: Head, g: Head, a: Attempt, b: Attempt) {
    && a.ok == b.ok && a.pos == b.pos <= k + 1 && a.head.header == h.header && b.head.header == g.header
    && a.head.verb == h.verb && b.head.verb == g.verb
    && (a.ok ==> a.head.uri == b.head.uri && Even(h.parts, g.parts, a.head.parts, b.head.parts))
  }

  lemma UriNear(t: seq<char>, u: seq<char>, p: nat, k: nat, h: Head, g: Head)
    requires t <= u && p <= k && IsCrlf(t, k)
    ensures SameUri(k, h, g, RequestUri(t, p, h), RequestUri(u, p, g))
  {
    hide Near, UriReference, Alike, Even;
    PrefixIsNear(t, u, p, k);
    var r, s := UriReference(t[p..], 0, h.parts), UriReference(u[p..], 0, g.parts);
    ReferenceNear(t[p..], u[p..], k - p, 0, h.parts, g.parts);
    AlikeIs(k - p, h.parts, g.parts, r, s);
    AlikeIsEven(k - p, h.parts, g.parts, r, s);
  }

  lemma VersionPartNear(t: seq<char>, u: seq<char>, k: nat, h: Head, g: Head, a: Attempt, b: Attempt)
    requires t <= u && IsCrlf(t, k) && SameUri(k, h, g, a, b) && h.verb == g.verb
    ensures SameLine(h, g, VersionPart(t, a), VersionPart(u, b))
  {
    hide Near, HttpVersion, Even, IsCrlf;
    PrefixIsNear(t, u, 0, k);
    IsNear(t, u, k, a.pos, ' ');
    if Is(t, a.pos, ' ') { AfterUri(t, u, k, a.pos); }
  }

  lemma AfterUri(t: seq<char>, u: seq<char>, k: nat, p: nat)
    requires t <= u && IsCrlf(t, k) && p < k
    ensures HttpVersion(t, p + 1) == HttpVersion(u, p + 1)
    ensures var v := HttpVersion(t, p + 1); v.Some? ==> IsCrlf(t, v.value.pos) == IsCrlf(u, v.value.pos)
  {
    hide HttpVersion;
    VersionNear(t, u, p + 1, k);
  }

  /** The request line is settled by the first line break. */
  lemma LineNear(t: seq<char>, u: seq<char>, k: nat, h: Head, g: Head)
    requires t <= u && FindCrlf(t, 0) == Some(k) == FindCrlf(u, 0)
    ensures SameLine(h, g, RequestLine(t, 0, h), RequestLine(u, 0, g))
  {
    hide Near, MethodAt, RequestUri, VersionPart, Even, IsCrlf, FindCrlf, SameUri;
    MethodStays(t, 0, k);
    MethodNear(t, u, 0, k);
    PrefixIsNear(t, u, 0, k);
    if MethodAt(t, 0).Some? {
      var m := MethodAt(t, 0).value;
      IsNear(t, u, k, m.pos, ' ');
      if Is(t, m.pos, ' ') {
        var h1, g1 := h.(verb := m.verb), g.(verb := m.verb);
        UriNear(t, u, m.pos + 1, k, h1, g1);
        VersionPartNear(t, u, k, h1, g1, RequestUri(t, m.pos + 1, h1), RequestUri(u, m.pos + 1, g1));
      }
    }
  }

  /** Repeating a line over what it left behind changes only what was changed in between. */
  lemma LineAgain(h: Head, g: Head, a: Attempt, b: Attempt)
    requires SameLine(h, g, a, b) && a.ok && g == a.head.(header := g.header)
    ensures b == a.(head := a.head.(header := g.header))
  {
    EvenAgain(h.parts, a.head.parts, b.head.parts);
  }

  lemma LineSame(h: Head, a: Attempt, b: Attempt)
    requires SameLine(h, h, a, b) && a.ok
    ensures a == b
  {
  }

  // ------------------------------------------------ arrival makes no difference

  /** A successful request is the same request on every extension of the buffer. */
  lemma RequestExtends(t: seq<char>, u: seq<char>, h: Head)
    requires t <= u && FindCrlf(t, 0).Some? && FindCrlf(u, 0) == FindCrlf(t, 0) && Request(t, h).ok
    ensures Request(u, h) == Request(t, h)
  {
    hide RequestLine, FindCrlf, Lines, SameLine;
    var l := RequestLine(t, 0, h);
    LineNear(t, u, FindCrlf(t, 0).value, h, h);
    LineSame(h, l, RequestLine(u, 0, h));
    LinesExtend(t, u, l.pos, l.head.header);
  }

  /** What a failed try left in the struct makes no difference to a later one. */
  lemma RequestRetries(t: seq<char>, u: seq<char>, h: Head)
    requires t <= u && FindCrlf(t, 0).Some? && FindCrlf(u, 0) == FindCrlf(t, 0) && Request(u, h).ok
    ensures Request(u, Request(t, h).head) == Request(u, h)
  {
    hide RequestLine, FindCrlf, Lines, SameLine;
    var k := FindCrlf(t, 0).value;
    var l, m := RequestLine(t, 0, h), RequestLine(u, 0, h);
    LineNear(t, u, k, h, h);
    LineOk(h, h, l, m);
    LineSame(h, l, m);
    LineHeader(h, h, l, m);
    var g := Request(t, h).head;
    var again := RequestLine(u, 0, g);
    LineNear(t, u, k, h, g);
    LineAgain(h, g, l, again);
    LinesRetry(t, u, l.pos, l.head.header);
  }

  lemma LineOk(h: Head, g: Head, a: Attempt, b: Attempt)
    requires SameLine(h, g, a, b)
    ensures a.ok == b.ok
  {
  }

  lemma LineHeader(h: Head, g: Head, a: Attempt, b: Attempt)
    requires SameLine(h, g, a, b)
    ensures a.head.header == h.header
  {
  }

  lemma TwoCrlfs(t: seq<char>, u: seq<char>, p: nat)
    requires t <= u && FindCrlf(t, p).Some? && FindCrlf(t, FindCrlf(t, p).value + 2).Some?
    ensures FindCrlf(u, p) == FindCrlf(t, p) && FindCrlf(t, 0).Some? && FindCrlf(u, 0) == FindCrlf(t, 0)
    ensures FindCrlf(u, FindCrlf(t, p).value + 2).Some?
  {
    FindCrlfIsFirst(t, 0, FindCrlf(t, p).value);
    FindCrlfGrows(t, u, p);
    FindCrlfGrows(t, u, 0);
    FindCrlfGrows(t, u, FindCrlf(t, p).value + 2);
  }

  /** If the head parser succeeds on a buffer, it succeeds on every extension of
      it, with the same head and the same cursor. */
  lemma SuccessExtends(t: seq<char>, u: seq<char>, p: nat, h: Head)
    requires t <= u && ParseHead(t, p, h).ok
    ensures ParseHead(u, p, h) == ParseHead(t, p, h)
  {
    hide FindCrlf, Request;
    TwoCrlfs(t, u, p);
    RequestExtends(t, u, h);
  }

  /** A try that fails on a shorter buffer does not change what the struct and
      the cursor are after a later try succeeds. */
  lemma FailureIsForgotten(t: seq<char>, u: seq<char>, p: nat, h: Head)
    requires t <= u && ParseHead(u, p, h).ok
    ensures ParseHead(u, p, ParseHead(t, p, h).head) == ParseHead(u, p, h)
  {
    hide FindCrlf, Request;
    if FindCrlf(t, p).Some? && FindCrlf(t, FindCrlf(t, p).value + 2).Some? {
      TwoCrlfs(t, u, p);
      RequestRetries(t, u, h);
    }
  }

  /** Whether a buffer holds a whole head does not depend on the struct. */
  lemma SameAnswer(t: seq<char>, p: nat, h: Head, g: Head)
    ensures ParseHead(t, p, h).ok == ParseHead(t, p, g).ok
  {
    hide RequestLine, FindCrlf, Lines, SameLine;
    if FindCrlf(t, p).Some? && FindCrlf(t, FindCrlf(t, p).value + 2).Some? {
      TwoCrlfs(t, t, p);
      var a, b := RequestLine(t, 0, h), RequestLine(t, 0, g);
      LineNear(t, t, FindCrlf(t, 0).value, h, g);
      LinePos(h, g, a, b);
      LinesOverwrite(t, a.pos, a.head.header);
      LinesOverwrite(t, b.pos, b.head.header);
    }
  }

  lemma LinePos(h: Head, g: Head, a: Attempt, b: Attempt)
    requires SameLine(h, g, a, b)
    ensures a.ok == b.ok && (a.ok ==> a.pos == b.pos)
  {
  }

  /** Receiving: after every chunk the head is tried again on the same struct,
      until it parses. */
  function Feed(got: seq<char>, chunks: seq<seq<char>>, h: Head): Attempt
    decreases |chunks|
  {
    if chunks == [] then Attempt(false, 0, h)
    else
      var r := ParseHead(got + chunks[0], 0, h);
      if r.ok then r else Feed(got + chunks[0], chunks[1..], r.head)
  }

  lemma {:induction false} FeedFrom(got: seq<char>, chunks: seq<seq<char>>, h: Head)
    requires !ParseHead(got, 0, h).ok
    ensures var one := ParseHead(got + Concat(chunks), 0, h);
      Feed(got, chunks, h).ok == one.ok && (one.ok ==> Feed(got, chunks, h) == one)
    decreases |chunks|
  {
    hide ParseHead;
    if chunks == [] {
      assert got + Concat(chunks) == got;
    } else {
      var t := got + chunks[0];
      var whole := got + Concat(chunks);
      assert whole == t + Concat(chunks[1..]);
      var r := ParseHead(t, 0, h);
      if r.ok {
        SuccessExtends(t, whole, 0, h);
      } else {
        SameAnswer(t, 0, h, r.head);
        FeedFrom(t, chunks[1..], r.head);
        SameAnswer(whole, 0, h, r.head);
        if ParseHead(whole, 0, h).ok { FailureIsForgotten(t, whole, 0, h); }
      }
    }
  }

  /** However the bytes arrive, the head parses exactly when it parses in one
      piece, and then the struct and the cursor are the same. */
  lemma ChunksMakeNoDifference(chunks: seq<seq<char>>, h: Head)
    ensures var one := ParseHead(Concat(chunks), 0, h);
      Feed([], chunks, h).ok == one.ok && (one.ok ==> Feed([], chunks, h) == one)
  {
    assert !ParseHead([], 0, h).ok;
    assert [] + Concat(chunks) == Concat(chunks);
    hide ParseHead;
    FeedFrom([], chunks, h);
  }

  // -------------------------------------------------------------------- numbers

  /** Of a version number only the first 49 digits count. */
  lemma FortyNineDigits(t: seq<char>, lo: nat, hi: nat)
    requires lo <= hi <= |t|
    ensures hi - lo <= 49 ==> NumberAt(t, lo, hi) == Value(t[lo..hi])
    ensures hi - lo > 49 ==> NumberAt(t, lo, hi) == Value(t[lo..lo + 49])
  {
  }

  /** A digit string is a number in base ten, most significant digit first. */
  lemma ValueMore(s: seq<char>, d: char)
    ensures Value([]) == 0
    ensures '0' <= d <= '9' ==> Value(s + [d]) == 10 * Value(s) + (d as int - 48)
  {
    var w := s + [d];
    assert w[..|w| - 1] == s;
  }

  /** What a refused target leaves in the struct: the rest of the buffer as the
      URI, and the cursor where it was; of an accepted one, the text read. */
  lemma UriLeft(t: seq<char>, p: nat, h: Head)
    requires p < |t|
    ensures var r := RequestUri(t, p, h);
      && r.head.uri == (if r.ok then Slice(p, r.pos) else Slice(p, |t|)) && (!r.ok ==> r.pos == p)
      && r.head.verb == h.verb && r.head.header == h.header && r.head.major == h.major && r.head.minor == h.minor
  {
    hide UriReference;
  }
}
