/** The request-head parser as the C code runs it: one cursor over the receive
    buffer, and a struct whose fields are filled along the way. */
module HttpParser {
  import opened Options
  import opened Cursor
  import opened UriGrammar
  import opened HttpTables
  import opened HttpLines
  import opened HttpHead
  import UriParser

  /** Cursor and slots when a known header has been read up to its line end. */
  function Taken(t: seq<char>, f: Found, header: map<nat, Slice>): (nat, map<nat, Slice>) {
    var k := FindCrlf(t, f.colon);
    if k.Some? then (k.value, header[f.slot := Slice(f.colon, k.value)])
    else (f.colon, header[f.slot := Slice(f.colon, |t|)])
  }

  class Parser {
    var request: seq<char>
    var readPos: nat
    var verb: nat
    var uri: Slice
    const requestUri: UriParser.Parser
    var major: nat
    var minor: nat
    var header: map<nat, Slice>

    constructor ()
      ensures request == [] && readPos == 0 && Head() == FRESH && fresh(requestUri)
    {
      request, readPos, verb, uri, major, minor, header := [], 0, 0, Unset, 0, 0, map[];
      requestUri := new UriParser.Parser([]);
    }

    ghost predicate Valid()
      reads this
    {
      readPos <= |request|
    }

    /** The struct the parser has filled. */
    function Head(): Head
      reads this, requestUri
    {
      HttpHead.Head.Head(verb, uri, requestUri.parts, major, minor, header)
    }

    function State(ok: bool): Attempt
      reads this, requestUri
    {
      Attempt(ok, readPos, Head())
    }

    method Crlf() returns (ok: bool)
      requires Valid()
      modifies this`readPos
      ensures Valid() && ok == IsCrlf(request, old(readPos))
      ensures readPos == if ok then old(readPos) + 2 else old(readPos)
    {
      if CharAt(request, readPos) == '\r' {
        readPos := Next(request, readPos);
        if CharAt(request, readPos) == '\n' {
          readPos := Next(request, readPos);
          return true;
        }
        readPos := Prev(request, readPos);
      }
      ok := false;
    }

    method FindLineEnd() returns (ok: bool)
      requires Valid()
      modifies this`readPos
      ensures Valid() && ok == FindCrlf(request, old(readPos)).Some?
      ensures readPos == if ok then FindCrlf(request, old(readPos)).value else old(readPos)
    {
      var pos := readPos;
      var c := CharAt(request, readPos);
      while readPos < |request|
        invariant Valid() && pos <= readPos && c == CharAt(request, readPos)
        invariant FindCrlf(request, pos) == FindCrlf(request, readPos)
      {
        readPos := Next(request, readPos);
        if c == '\r' {
          c := CharAt(request, readPos);
          if c == '\n' {
            readPos := Prev(request, readPos);
            return true;
          }
        } else {
          c := CharAt(request, readPos);
        }
      }
      readPos := pos;
      ok := false;
    }

    /** Compares the line with a table of names; the cursor stops at the ':'. */
    method MatchName(table: seq<seq<char>>) returns (i: nat)
      requires Valid()
      modifies this`readPos
      ensures Valid() && i == Lookup(table, request, old(readPos), 0)
      ensures readPos == if i < |table| then old(readPos) + |table[i]| else old(readPos)
    {
      var pos := readPos;
      var c := Lower(CharAt(request, readPos));
      i := 0;
      while i < |table|
        invariant i <= |table| && readPos == pos && Valid() && c == Lower(CharAt(request, pos))
        invariant Lookup(table, request, pos, 0) == Lookup(table, request, pos, i)
      {
        var j := 0;
        while j < |table[i]| && table[i][j] == c
          invariant j <= |table[i]| && readPos == pos + j && Valid() && c == Lower(CharAt(request, readPos))
          invariant forall k :: 0 <= k < j ==> readPos <= |request| && Lower(request[pos + k]) == table[i][k]
        {
          var more := HasNext(request, readPos);
          if !more {
            readPos := Next(request, readPos);
            break;
          }
          readPos := Next(request, readPos);
          c := Lower(CharAt(request, readPos));
          j := j + 1;
        }
        if j == |table[i]| && c == ':' {
          assert Named(request, pos, table[i]);
          return;
        }
        assert !Named(request, pos, table[i]);
        if readPos != pos {
          readPos := pos;
          c := Lower(CharAt(request, readPos));
        }
        i := i + 1;
      }
    }

    /** A header of one table: its slot gets the text from ':' to the line end. */
    method TableHeader(table: seq<seq<char>>, start: nat) returns (ok: bool)
      requires Valid()
      modifies this`readPos, this`header
      ensures Valid()
      ensures var p := old(readPos); var i := Lookup(table, request, p, 0);
        && ok == (i < |table|)
        && (!ok ==> readPos == p && header == old(header))
        && (ok ==> (readPos, header) == Taken(request, Found(start + i, p + |table[i]|), old(header)))
    {
      var i := MatchName(table);
      ok := i < |table|;
      if ok {
        var colon := readPos;
        var found := FindLineEnd();
        var end := if found then readPos else |request|;
        header := header[start + i := Slice(colon, end)];
      }
    }

    /** A known header line: general, request and entity headers in turn. */
    method KnownLine() returns (ok: bool)
      requires Valid()
      modifies this`readPos, this`header
      ensures Valid()
      ensures var f := KnownHeader(request, old(readPos));
        && ok == f.Some?
        && (!ok ==> readPos == old(readPos) && header == old(header))
        && (ok ==> (readPos, header) == Taken(request, f.value, old(header)))
    {
      hide Lookup, Taken;
      ok := TableHeader(GENERAL_HEADERS, GENERAL_START);
      if !ok {
        ok := TableHeader(REQUEST_HEADERS, REQUEST_START);
        if !ok {
          ok := TableHeader(ENTITY_HEADERS, ENTITY_START);
        }
      }
    }

    method HeaderLines() returns (ok: bool)
      requires Valid()
      modifies this`readPos, this`header
      ensures Valid() && Block(ok, readPos, header) == Lines(request, old(readPos), old(header))
    {
      hide KnownHeader, FindCrlf;
      ghost var pos, slots := readPos, header;
      while true
        invariant Valid() && Lines(request, pos, slots) == Lines(request, readPos, header)
        decreases |request| - readPos
      {
        ghost var f := KnownHeader(request, readPos);
        var known := KnownLine();
        if known {
          if IsCrlf(request, f.value.colon) { FindCrlfIsFirst(request, f.value.colon, f.value.colon); }
          var end := Crlf();
          if !end {
            return false;
          }
        } else {
          var blank := Crlf();
          if blank {
            return true;
          }
          var found := FindLineEnd();
          if !found {
            return false;
          }
          var end := Crlf();
        }
      }
    }

    /** Consumes what the text shares with a word. */
    method MatchWord(word: seq<char>) returns (j: nat)
      requires Valid()
      modifies this`readPos
      ensures Valid() && j == Common(word, request, old(readPos)) && readPos == old(readPos) + j
    {
      ghost var pos := readPos;
      j := 0;
      while j < |word| && readPos < |request| && word[j] == Upper(CharAt(request, readPos))
        invariant j <= |word| && readPos == pos + j && Valid()
        invariant Common(word, request, pos) == j + Common(word[j..], request, readPos)
      {
        assert word[j..][1..] == word[j + 1..];
        readPos := Next(request, readPos);
        j := j + 1;
      }
    }

    /** The method loop; nothing puts the cursor back between table entries. */
    method MatchEntry(table: seq<seq<char>>) returns (i: nat)
      requires Valid()
      modifies this`readPos
      ensures Valid() && i <= |table|
      ensures MatchIn(table, request, old(readPos), 0) == if i < |table| then Some(Match(i, readPos)) else None
    {
      ghost var pos := readPos;
      i := 0;
      while i < |table|
        invariant i <= |table| && Valid()
        invariant MatchIn(table, request, pos, 0) == MatchIn(table, request, readPos, i)
      {
        var j := MatchWord(table[i]);
        if j == |table[i]| {
          return;
        }
        i := i + 1;
      }
    }

    method Method() returns (ok: bool)
      requires Valid()
      modifies this`readPos, this`verb
      ensures Valid()
      ensures var m := MethodAt(request, old(readPos));
        && ok == m.Some?
        && readPos == (if ok then m.value.pos else old(readPos)) && verb == (if ok then m.value.verb else old(verb))
    {
      var pos := readPos;
      var i := MatchEntry(METHODS);
      ok := i < |METHODS|;
      if ok {
        verb := i;
      } else {
        readPos := pos;
      }
    }

    /** A run of digits. */
    method Digits() returns (ok: bool)
      requires Valid()
      modifies this`readPos
      ensures Valid() && readPos == Scan(Number, request, old(readPos)) && ok == (readPos > old(readPos))
    {
      var pos := readPos;
      while Digit(CharAt(request, readPos))
        invariant Valid() && pos <= readPos && Scan(Number, request, pos) == Scan(Number, request, readPos)
        decreases |request| - readPos
      {
        readPos := Next(request, readPos);
      }
      ok := readPos > pos;
    }

    /** The value `atoi` gives the first digits of a run. */
    method Atoi(lo: nat, hi: nat) returns (value: nat)
      requires lo <= hi <= |request| && forall k :: lo <= k < hi ==> Digit(request[k])
      ensures value == NumberAt(request, lo, hi)
    {
      var end := if hi - lo > MAX_DIGITS then lo + MAX_DIGITS else hi;
      value := 0;
      var i := lo;
      while i < end
        invariant lo <= i <= end && value == Value(request[lo..i])
      {
        assert request[lo..i + 1][..i - lo] == request[lo..i];
        value := 10 * value + (request[i] as nat - '0' as nat);
        i := i + 1;
      }
    }

    method VersionNumbersRule() returns (ok: bool)
      requires Valid()
      modifies this`readPos, this`major, this`minor
      ensures Valid()
      ensures var v := VersionNumbers(request, old(readPos));
        && ok == v.Some?
        && (ok ==> readPos == v.value.pos && major == v.value.major && minor == v.value.minor)
        && (!ok ==> major == old(major) && minor == old(minor))
    {
      hide Scan, NumberAt;
      var a := readPos;
      ok := Digits();
      if ok && CharAt(request, readPos) == '.' {
        var b := readPos;
        readPos := Next(request, readPos);
        var c := readPos;
        ok := Digits();
        if ok {
          DigitRun(request, a, b);
          DigitRun(request, c, readPos);
          major := Atoi(a, b);
          minor := Atoi(c, readPos);
        }
      } else {
        ok := false;
      }
    }

    method HttpVersionRule() returns (ok: bool)
      requires Valid()
      modifies this`readPos, this`major, this`minor
      ensures Valid()
      ensures var v := HttpVersion(request, old(readPos));
        && ok == v.Some?
        && (ok ==> readPos == v.value.pos && major == v.value.major && minor == v.value.minor)
        && (!ok ==> readPos == old(readPos) && major == old(major) && minor == old(minor))
    {
      hide VersionNumbers;
      var pos := readPos;
      var word := "HTTP/";
      var n := MatchWord(word);
      ok := n == |word|;
      if ok {
        ok := VersionNumbersRule();
      }
      if !ok {
        readPos := pos;
      }
    }

    method RequestUriRule() returns (ok: bool)
      requires Valid() && readPos < |request|
      modifies this`readPos, this`uri, requestUri
      ensures Valid() && State(ok) == RequestUri(request, old(readPos), old(Head()))
    {
      hide UriReference;
      requestUri.text, requestUri.readPos := request[readPos..], 0;
      uri := Slice(readPos, |request|);
      ok := requestUri.UriReferenceRule();
      if ok {
        uri := Slice(readPos, readPos + requestUri.readPos);
        requestUri.text := requestUri.text[..requestUri.readPos];
        readPos := readPos + requestUri.readPos;
      }
    }

    method RequestLineRule() returns (ok: bool)
      requires Valid() && FindCrlf(request, readPos).Some?
      modifies this, requestUri
      ensures Valid() && request == old(request) && State(ok) == RequestLine(request, old(readPos), old(Head()))
    {
      hide MethodAt, RequestUri, HttpVersion, FindCrlf;
      var pos := readPos;
      MethodStays(request, pos, FindCrlf(request, pos).value);
      ok := Method();
      if ok && CharAt(request, readPos) == ' ' {
        readPos := Next(request, readPos);
        ok := RequestUriRule();
        if ok && CharAt(request, readPos) == ' ' {
          readPos := Next(request, readPos);
          ok := HttpVersionRule();
          if ok {
            ok := Crlf();
            if ok {
              return;
            }
          }
        }
      }
      ok := false;
      readPos := pos;
    }

    method RequestRule() returns (ok: bool)
      requires Valid() && readPos == 0 && FindCrlf(request, 0).Some?
      modifies this, requestUri
      ensures request == old(request) && State(ok) == Request(request, old(Head()))
      ensures ok ==> Valid()
    {
      hide RequestLine, FindCrlf, Lines;
      ok := RequestLineRule();
      if ok {
        ok := HeaderLines();
      }
    }

    /** The entry point the connection calls after every receive. */
    method ParseRequestHeaders() returns (ok: bool)
      requires Valid()
      modifies this, requestUri
      ensures Valid() && request == old(request)
      ensures State(ok) == ParseHead(request, old(readPos), old(Head()))
    {
      hide FindCrlf, Request;
      var pos := readPos;
      ok := false;
      var found := FindLineEnd();
      if found {
        ghost var k := readPos;
        var crlf := Crlf();
        found := FindLineEnd();
        if found {
          readPos := 0;
          FindCrlfIsFirst(request, 0, k);
          ok := RequestRule();
        }
      }
      if !ok {
        readPos := pos;
      }
    }
  }

  lemma {:induction false} DigitRun(t: seq<char>, p: nat, e: nat)
    requires p <= |t| && e == Scan(Number, t, p)
    ensures forall k :: p <= k < e ==> Digit(t[k])
    decreases |t| - p
  {
    if Starts(Number, t, p) { DigitRun(t, p + 1, e); }
  }
}
