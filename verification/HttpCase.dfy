/** Letter case: header names and methods are found in any mixture of small and
    capital letters, byte by byte (sections 4.2 and 5.1.1 of RFC 2616). */
module HttpCase {
  import opened Options
  import opened HttpTables
  import opened HttpLines
  import opened HttpHead

  /** The small letter itself or the capital one; any other byte only itself. */
  predicate SmallOrCapital(c: char, small: char) { c == small || ('a' <= small <= 'z' && c == small - 32 as char) }

  /** The capital letter itself or the small one; any other byte only itself. */
  predicate CapitalOrSmall(c: char, capital: char) {
    c == capital || ('A' <= capital <= 'Z' && c == capital + 32 as char)
  }

  predicate IsSmall(w: seq<char>) { forall i :: 0 <= i < |w| ==> !('A' <= w[i] <= 'Z') }

  predicate IsCapital(w: seq<char>) { forall i :: 0 <= i < |w| ==> !('a' <= w[i] <= 'z') }

  lemma GeneralIsSmall(i: nat)
    requires i < |GENERAL_HEADERS|
    ensures IsSmall(GENERAL_HEADERS[i])
  {
  }

  lemma EntityIsSmall(i: nat)
    requires i < |ENTITY_HEADERS|
    ensures IsSmall(ENTITY_HEADERS[i])
  {
  }

  lemma RequestIsSmall(i: nat)
    requires i < |REQUEST_HEADERS|
    ensures IsSmall(REQUEST_HEADERS[i])
  {
  }

  lemma NamesAreSmall(slot: nat)
    requires slot < SLOTS
    ensures IsSmall(HeaderName(slot))
  {
    hide IsSmall;
    if slot < ENTITY_START {
      GeneralIsSmall(slot);
    } else if slot < REQUEST_START {
      EntityIsSmall(slot - ENTITY_START);
    } else {
      RequestIsSmall(slot - REQUEST_START);
    }
  }

  lemma LowerIs(c: char, small: char)
    requires !('A' <= small <= 'Z')
    ensures Lower(c) == small <==> SmallOrCapital(c, small)
  {
  }

  /** The bytes at `p` up to a ':' are the name in any mixture of letters. */
  predicate Written(t: seq<char>, p: nat, name: seq<char>) {
    p + |name| < |t| && t[p + |name|] == ':' && forall i :: 0 <= i < |name| ==> SmallOrCapital(t[p + i], name[i])
  }

  lemma NamedIsWritten(t: seq<char>, p: nat, name: seq<char>)
    requires IsSmall(name)
    ensures Named(t, p, name) <==> Written(t, p, name)
  {
    hide Lower, SmallOrCapital;
    if p + |name| < |t| {
      forall i | 0 <= i < |name| ensures Lower(t[p + i]) == name[i] <==> SmallOrCapital(t[p + i], name[i]) {
        LowerIs(t[p + i], name[i]);
      }
    }
  }

  /** A line fills a slot exactly when its bytes up to the first ':' are, one by
      one, those of the slot's name or the capital letters of them. */
  lemma SlotIff(t: seq<char>, p: nat, slot: nat)
    requires slot < SLOTS
    ensures KnownHeader(t, p) == Some(Found(slot, p + |HeaderName(slot)|)) <==> Written(t, p, HeaderName(slot))
  {
    hide *;
    NamesAreSmall(slot);
    KnownIff(t, p, slot);
    NamedIsWritten(t, p, HeaderName(slot));
  }

  /** The bytes are the same, or the same letter in another case. */
  predicate SameLetter(c: char, d: char) {
    c == d || ('A' <= c <= 'Z' && d == c + 32 as char) || ('A' <= d <= 'Z' && c == d + 32 as char)
  }

  predicate SameLetters(t: seq<char>, u: seq<char>) {
    |t| == |u| && forall k :: 0 <= k < |t| ==> SameLetter(t[k], u[k])
  }

  lemma SameWritten(t: seq<char>, u: seq<char>, p: nat, name: seq<char>)
    requires SameLetters(t, u) && IsSmall(name) && Written(t, p, name)
    ensures Written(u, p, name)
  {
    forall i | 0 <= i < |name| ensures SmallOrCapital(u[p + i], name[i]) {
      assert SameLetter(t[p + i], u[p + i]) && SmallOrCapital(t[p + i], name[i]) && !('A' <= name[i] <= 'Z');
    }
    assert SameLetter(t[p + |name|], u[p + |name|]);
  }

  lemma KnownInAnyCase(t: seq<char>, u: seq<char>, p: nat)
    requires SameLetters(t, u) && KnownHeader(t, p).Some?
    ensures KnownHeader(u, p) == KnownHeader(t, p)
  {
    hide *;
    KnownIsNamed(t, p);
    var s := KnownHeader(t, p).value.slot;
    NamesAreSmall(s);
    NamedIsWritten(t, p, HeaderName(s));
    SameWritten(t, u, p, HeaderName(s));
    SlotIff(u, p, s);
  }

  lemma SameLettersBack(t: seq<char>, u: seq<char>)
    requires SameLetters(t, u)
    ensures SameLetters(u, t)
  {
    forall k | 0 <= k < |u| ensures SameLetter(u[k], t[k]) { assert SameLetter(t[k], u[k]); }
  }

  /** Texts that differ in letter case only have the same headers. */
  lemma CaseDoesNotMatter(t: seq<char>, u: seq<char>, p: nat)
    requires SameLetters(t, u)
    ensures KnownHeader(t, p) == KnownHeader(u, p)
  {
    hide KnownHeader, SameLetters;
    SameLettersBack(t, u);
    if KnownHeader(t, p).Some? {
      KnownInAnyCase(t, u, p);
    } else if KnownHeader(u, p).Some? {
      KnownInAnyCase(u, t, p);
    }
  }

  lemma HostName()
    ensures HeaderName(26) == "host" && HeaderName(12) == "content-length" && HeaderName(1) == "connection"
  {
  }

  lemma HostIsWritten()
    ensures Written("Host: a\r\n", 0, "host")
  {
  }

  /** "Host: a" fills slot 26. */
  lemma HostIsKnown()
    ensures KnownHeader("Host: a\r\n", 0) == Some(Found(26, 4))
  {
    hide KnownHeader, HeaderName, Written;
    HostName();
    HostIsWritten();
    SlotIff("Host: a\r\n", 0, 26);
  }

  lemma LengthIsWritten()
    ensures Written("CONTENT-Length: 3\r\n", 0, "content-length")
  {
  }

  /** "CONTENT-Length: 3" fills slot 12. */
  lemma ContentLengthIsKnown()
    ensures KnownHeader("CONTENT-Length: 3\r\n", 0) == Some(Found(12, 14))
  {
    hide KnownHeader, HeaderName, Written;
    HostName();
    LengthIsWritten();
    SlotIff("CONTENT-Length: 3\r\n", 0, 12);
  }

  // -------------------------------------------------------------------- methods

  lemma UpperIs(c: char, capital: char)
    requires !('a' <= capital <= 'z')
    ensures Upper(c) == capital <==> CapitalOrSmall(c, capital)
  {
  }

  lemma MethodsAreCapital(i: nat)
    requires i < |METHODS|
    ensures IsCapital(METHODS[i])
  {
  }

  /** The word in any mixture of letters. */
  predicate AnyCase(x: seq<char>, word: seq<char>) {
    |x| == |word| && forall k :: 0 <= k < |x| ==> CapitalOrSmall(x[k], word[k])
  }

  lemma {:induction false} SpellsAnyCase(word: seq<char>, t: seq<char>, p: nat)
    requires p + |word| <= |t| && AnyCase(t[p..p + |word|], word) && IsCapital(word)
    ensures Spells(word, t, p)
  {
    hide CapitalOrSmall, Upper;
    if word != [] {
      assert t[p + 1..p + |word|] == t[p..p + |word|][1..] && t[p] == t[p..p + |word|][0];
      UpperIs(t[p], word[0]);
      SpellsAnyCase(word[1..], t, p + 1);
    }
  }

  /** A method spelled in any mixture of letters is found, except PUT. */
  lemma MethodInAnyCase(t: seq<char>, x: seq<char>, i: nat)
    requires i < |METHODS| && AnyCase(x, METHODS[i]) && x <= t
    ensures MethodAt(t, 0) == if i == METHOD_PUT then None else Some(Match(i, |x|))
  {
    hide MethodAt, IsCapital;
    MethodsAreCapital(i);
    assert t[0..|x|] == x;
    var word := METHODS[i];
    SpellsAnyCase(word, t, 0);
    MethodIff(t, 0, i);
  }

  // ------------------------------------------------------------ numbers of slots

  /** The slots of the general headers (section 4.5 of RFC 2616). */
  lemma GeneralSlots()
    ensures HeaderName(0) == "cache-control" && HeaderName(1) == "connection"
    ensures HeaderName(2) == "date" && HeaderName(3) == "pragma"
    ensures HeaderName(4) == "trailer" && HeaderName(5) == "transfer-encoding"
    ensures HeaderName(6) == "upgrade" && HeaderName(7) == "via"
    ensures HeaderName(8) == "warning"
  {
  }

  /** The slots of the entity headers (section 7.1). */
  lemma EntitySlots()
    ensures HeaderName(9) == "allow" && HeaderName(10) == "content-encoding"
    ensures HeaderName(11) == "content-language" && HeaderName(12) == "content-length"
    ensures HeaderName(13) == "content-location" && HeaderName(14) == "content-md5"
    ensures HeaderName(15) == "content-range" && HeaderName(16) == "content-type"
    ensures HeaderName(17) == "expires" && HeaderName(18) == "last-modified"
  {
  }

  /** The slots of the request headers (section 5.3). */
  lemma RequestSlots()
    ensures HeaderName(19) == "accept" && HeaderName(20) == "accept-charset"
    ensures HeaderName(21) == "accept-encoding" && HeaderName(22) == "accept-language"
    ensures HeaderName(23) == "authorization" && HeaderName(24) == "expect"
    ensures HeaderName(25) == "from" && HeaderName(26) == "host"
    ensures HeaderName(27) == "if-match" && HeaderName(28) == "if-modified-since"
  {
  }

  lemma MoreRequestSlots()
    ensures HeaderName(29) == "if-none-match" && HeaderName(30) == "if-range"
    ensures HeaderName(31) == "if-unmodified-since" && HeaderName(32) == "max-forwards"
    ensures HeaderName(33) == "proxy-authorization" && HeaderName(34) == "range"
    ensures HeaderName(35) == "referer" && HeaderName(36) == "te"
    ensures HeaderName(37) == "user-agent"
  {
  }

  lemma MethodNames()
    ensures METHODS[0] == "OPTIONS" && METHODS[1] == "GET" && METHODS[2] == "HEAD" && METHODS[3] == "POST"
    ensures METHODS[5] == "DELETE" && METHODS[6] == "TRACE" && METHODS[7] == "CONNECT" && |METHODS| == 8
  {
  }

  lemma SameIsAnyCase(x: seq<char>)
    ensures AnyCase(x, x)
  {
  }

  /** The numbers of the methods (section 5.1.1). */
  lemma MethodNumbers(rest: seq<char>)
    ensures MethodAt("OPTIONS" + rest, 0) == Some(Match(0, 7)) && MethodAt("GET" + rest, 0) == Some(Match(1, 3))
    ensures MethodAt("HEAD" + rest, 0) == Some(Match(2, 4)) && MethodAt("POST" + rest, 0) == Some(Match(3, 4))
    ensures MethodAt("DELETE" + rest, 0) == Some(Match(5, 6)) && MethodAt("TRACE" + rest, 0) == Some(Match(6, 5))
    ensures MethodAt("CONNECT" + rest, 0) == Some(Match(7, 7)) && MethodAt("PUT" + rest, 0) == None
  {
    hide MethodAt, AnyCase;
    MethodNames();
    forall i: nat | i < 8 ensures MethodAt(METHODS[i] + rest, 0) ==
                                  if i == METHOD_PUT then None else Some(Match(i, |METHODS[i]|))
    {
      SameIsAnyCase(METHODS[i]);
      MethodInAnyCase(METHODS[i] + rest, METHODS[i], i);
    }
    var put := METHODS[4];
    assert put == "PUT" && MethodAt(METHODS[0] + rest, 0).Some?;
  }
}
