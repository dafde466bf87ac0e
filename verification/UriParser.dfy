/** The RFC 2396 parser as the C code runs it: one cursor that every grammar
    function moves, and component fields it assigns. */
module UriParser {
  import opened Cursor
  import opened UriGrammar

  class Parser {
    var text: seq<char>
    var readPos: nat
    var parts: Parts

    constructor (text: seq<char>)
      ensures this.text == text && readPos == 0 && parts == NO_PARTS
    {
      this.text, readPos, parts := text, 0, NO_PARTS;
    }

    ghost predicate Valid()
      reads this
    {
      readPos <= |text|
    }

    function State(ok: bool): Parse
      reads this
    {
      Parse(ok, readPos, parts)
    }

    method IsChar(c: char) returns (ok: bool)
      requires Valid() && c != '\0'
      modifies this`readPos
      ensures Valid() && ok == Is(text, old(readPos), c)
      ensures readPos == if ok then old(readPos) + 1 else old(readPos)
    {
      ok := CharAt(text, readPos) == c;
      if ok {
        readPos := Next(text, readPos);
      }
    }

    /** A whole `%` escape; a '%' that ends the text is passed all the same. */
    method Escaped() returns (ok: bool)
      requires Valid()
      modifies this`readPos
      ensures Valid() && ok == IsEscape(text, old(readPos))
      ensures readPos == if ok then old(readPos) + 3 else Missed(Uric, text, old(readPos))
    {
      var pos := readPos;
      if CharAt(text, readPos) == '%' {
        var more := HasNext(text, readPos);
        readPos := Next(text, readPos);
        if more {
          if Hex(CharAt(text, readPos)) {
            more := HasNext(text, readPos);
            readPos := Next(text, readPos);
            if more && Hex(CharAt(text, readPos)) {
              readPos := Next(text, readPos);
              return true;
            }
          }
          readPos := pos;
        }
      }
      ok := false;
    }

    /** A character of a class, by itself or as an escape; an escape moves the cursor. */
    method IsClass(cls: Class) returns (ok: bool)
      requires Valid()
      modifies this`readPos
      ensures Valid() && ok == Starts(cls, text, old(readPos))
      ensures readPos == if !ok then Missed(cls, text, old(readPos))
                         else if In(cls, text[old(readPos)]) then old(readPos) else old(readPos) + 3
    {
      if readPos < |text| && In(cls, text[readPos]) {
        return true;
      }
      ok := false;
      if Escapes(cls) {
        ok := Escaped();
      }
    }

    /** The loop that skips characters of a class and steps once after each. */
    method Skip(cls: Class)
      requires Valid()
      modifies this`readPos
      ensures Valid() && readPos == Scan(cls, text, old(readPos))
    {
      hide In, Hex, IsEscape;
      ghost var pos := readPos;
      while true
        invariant Valid() && Scan(cls, text, pos) == Scan(cls, text, readPos)
        decreases |text| - readPos
      {
        var ok := IsClass(cls);
        if !ok {
          break;
        }
        var more := HasNext(text, readPos);
        readPos := Next(text, readPos);
        if !more {
          break;
        }
      }
    }

    /** As `Skip`, with a class of its own for the first character. */
    method FirstThenSkip(first: Class, cls: Class) returns (ok: bool)
      requires Valid()
      modifies this`readPos
      ensures Valid() && ok == Starts(first, text, old(readPos))
      ensures readPos == if ok then Scan(cls, text, Step(first, text, old(readPos)))
                         else Missed(first, text, old(readPos))
    {
      ok := IsClass(first);
      if ok {
        var more := HasNext(text, readPos);
        readPos := Next(text, readPos);
        if more {
          Skip(cls);
        }
      }
    }

    method Segment()
      requires Valid()
      modifies this`readPos
      ensures Valid() && readPos == SegmentEnd(text, old(readPos))
    {
      hide Scan;
      ghost var pos := readPos;
      Skip(Pchar);
      while true
        invariant Valid() && SegmentEnd(text, pos) == ParamsEnd(text, readPos)
        decreases |text| - readPos
      {
        var semicolon := IsChar(';');
        if !semicolon {
          break;
        }
        Skip(Pchar);
      }
    }

    method PathSegments()
      requires Valid()
      modifies this`readPos
      ensures Valid() && readPos == PathEnd(text, old(readPos))
    {
      hide SegmentEnd;
      ghost var pos := readPos;
      Segment();
      while true
        invariant Valid()
        invariant PathEnd(text, pos) == if Is(text, readPos, '/') then PathEnd(text, readPos + 1) else readPos
        decreases |text| - readPos
      {
        var slash := IsChar('/');
        if !slash {
          break;
        }
        Segment();
      }
    }

    method AbsPathRule() returns (ok: bool)
      requires Valid()
      modifies this`readPos, this`parts
      ensures Valid() && State(ok) == AbsPath(text, old(readPos), old(parts))
    {
      var pos := readPos;
      ok := IsChar('/');
      if ok {
        PathSegments();
        parts := parts.(absPath := Slice(pos, readPos));
      } else {
        readPos := pos;
      }
    }

    method RelPathRule() returns (ok: bool)
      requires Valid()
      modifies this`readPos, this`parts
      ensures Valid() && State(ok) == RelPath(text, old(readPos), old(parts))
    {
      var pos := readPos;
      ok := FirstThenSkip(RelSegment, RelSegment);
      if ok {
        var isAbsPath := AbsPathRule();
        parts := parts.(relPath := Slice(pos, readPos));
      } else {
        readPos := pos;
      }
    }

    method SchemeRule() returns (ok: bool)
      requires Valid()
      modifies this`readPos, this`parts
      ensures Valid() && State(ok) == Scheme(text, old(readPos), old(parts))
    {
      var pos := readPos;
      ok := Alpha(CharAt(text, readPos));
      if ok {
        var more := HasNext(text, readPos);
        readPos := Next(text, readPos);
        if more {
          Skip(SchemeChar);
        }
        parts := parts.(scheme := Slice(pos, readPos));
      }
    }

    /** A domain label (`top` false) or a top label. */
    method LabelRule(top: bool) returns (ok: bool)
      requires Valid()
      modifies this`readPos
      ensures Valid() && ok == LabelOk(text, old(readPos), top)
      ensures readPos == if ok then Scan(Label, text, old(readPos)) else old(readPos)
    {
      var pos := readPos;
      var c := CharAt(text, readPos);
      ok := if top then Alpha(c) else Alphanum(c);
      if ok {
        while true
          invariant pos <= readPos < |text| && ok
          invariant In(Label, text[readPos])
          invariant Scan(Label, text, pos) == Scan(Label, text, readPos)
          decreases |text| - readPos
        {
          if !HasNext(text, readPos) {
            readPos := Next(text, readPos);
            break;
          }
          readPos := Next(text, readPos);
          if !In(Label, CharAt(text, readPos)) {
            if text[readPos - 1] == '-' {
              ok := false;
            }
            break;
          }
        }
      }
      if !ok {
        readPos := pos;
      }
    }

    method HostnameRule() returns (ok: bool)
      requires Valid()
      modifies this`readPos
      ensures Valid() && (ok, readPos) == Hostname(text, old(readPos))
    {
      var pos := readPos;
      var labelPos: nat := pos;
      while true
        invariant Valid() && labelPos <= |text|
        invariant LastLabel(text, pos, pos) == LastLabel(text, readPos, labelPos)
        decreases |text| - readPos
      {
        var pos1 := readPos;
        var isLabel := LabelRule(false);
        if !isLabel {
          break;
        }
        labelPos := pos1;
        var dot := IsChar('.');
        if !dot {
          break;
        }
      }
      assert labelPos == LastLabel(text, pos, pos);
      readPos := labelPos;
      ok := LabelRule(true);
      if ok {
        var dot := IsChar('.');
      } else {
        readPos := pos;
      }
    }

    method IPv4Rule() returns (ok: bool)
      requires Valid()
      modifies this`readPos
      ensures Valid() && ok == Numbers(text, old(readPos), 0).0
      ensures readPos == if ok then Numbers(text, old(readPos), 0).1 else old(readPos)
    {
      var pos := readPos;
      var i, digits := 0, 0;
      while i < 4
        invariant Valid() && 0 <= digits <= i <= 4
        invariant digits == i < 4 ==> Numbers(text, pos, 0) == Numbers(text, readPos, i)
        invariant digits == 4 ==> Numbers(text, pos, 0) == (true, readPos)
        invariant digits < i ==> !Numbers(text, pos, 0).0
        decreases 4 - i
      {
        if Digit(CharAt(text, readPos)) {
          var more := HasNext(text, readPos);
          readPos := Next(text, readPos);
          if !more {
            break;
          }
          Skip(Number);
          if i < 3 {
            var dot := IsChar('.');
            if !dot {
              break;
            }
          }
          digits := digits + 1;
        }
        i := i + 1;
      }
      ok := digits == 4;
      if !ok {
        readPos := pos;
      }
    }

    method HostRule() returns (ok: bool)
      requires Valid()
      modifies this`readPos, this`parts
      ensures Valid() && State(ok) == Host(text, old(readPos), old(parts))
    {
      var pos := readPos;
      ok := HostnameRule();
      if !ok {
        ok := IPv4Rule();
      }
      if ok {
        parts := parts.(host := Slice(pos, readPos));
      } else {
        readPos := pos;
      }
    }

    method PortRule() returns (ok: bool)
      requires Valid()
      modifies this`readPos, this`parts
      ensures Valid() && State(ok) == Port(text, old(readPos), old(parts))
    {
      var pos := readPos;
      Skip(Number);
      ok := readPos > pos;
      if ok {
        parts := parts.(port := Slice(pos, readPos));
      } else {
        readPos := pos;
      }
    }

    method HostportRule() returns (ok: bool)
      requires Valid()
      modifies this`readPos, this`parts
      ensures Valid() && State(ok) == Hostport(text, old(readPos), old(parts))
    {
      var pos := readPos;
      ok := HostRule();
      if ok {
        var colon := IsChar(':');
        if colon {
          var isPort := PortRule();
          ok := true;
        }
      } else {
        readPos := pos;
      }
    }

    method AuthorityRule() returns (ok: bool)
      requires Valid()
      modifies this`readPos, this`parts
      ensures Valid() && State(ok) == Authority(text, old(readPos), old(parts))
    {
      hide Hostport, Scan;
      var pos := readPos;
      Skip(Userinfo);
      var isUserinfo := IsChar('@');
      if isUserinfo {
        parts := parts.(userinfo := Slice(pos, readPos - 1));
      } else {
        readPos := pos;
      }
      var isHostport := HostportRule();
      if !isHostport {
        readPos := pos;
        parts := parts.(userinfo := Unset);
      }
      parts := parts.(authority := Slice(pos, readPos));
      ok := true;
    }

    method NetPathRule() returns (ok: bool)
      requires Valid()
      modifies this`readPos, this`parts
      ensures Valid() && State(ok) == NetPath(text, old(readPos), old(parts))
    {
      hide Authority, AbsPath;
      var pos := readPos;
      ok := IsChar('/');
      if ok {
        ok := IsChar('/');
        if ok {
          ok := AuthorityRule();
          var isAbsPath := AbsPathRule();
        }
      }
      if ok {
        parts := parts.(netPath := Slice(pos, readPos));
      } else {
        readPos := pos;
      }
    }

    method OpaquePartRule() returns (ok: bool)
      requires Valid()
      modifies this`readPos, this`parts
      ensures Valid() && State(ok) == OpaquePart(text, old(readPos), old(parts))
    {
      var pos := readPos;
      ok := FirstThenSkip(NoSlash, Uric);
      if ok {
        parts := parts.(opaquePart := Slice(pos, readPos));
      }
    }

    method QueryRule()
      requires Valid()
      modifies this`readPos, this`parts
      ensures Valid() && State(true) == Query(text, old(readPos), old(parts))
    {
      var pos := readPos;
      Skip(Uric);
      parts := parts.(query := Slice(pos, readPos));
    }

    method FragmentRule()
      requires Valid()
      modifies this`readPos, this`parts
      ensures Valid() && State(true) == Fragment(text, old(readPos), old(parts))
    {
      var pos := readPos;
      Skip(Uric);
      parts := parts.(fragment := Slice(pos, readPos));
    }

    method HierPartRule() returns (ok: bool)
      requires Valid()
      modifies this`readPos, this`parts
      ensures Valid() && State(ok) == HierPart(text, old(readPos), old(parts))
    {
      hide NetPath, AbsPath, Query;
      var pos := readPos;
      ok := NetPathRule();
      if !ok {
        ok := AbsPathRule();
      }
      var mark := IsChar('?');
      if mark {
        QueryRule();
      }
      if !ok {
        readPos := pos;
      }
    }

    method RelativeUriRule() returns (ok: bool)
      requires Valid()
      modifies this`readPos, this`parts
      ensures Valid() && State(ok) == RelativeUri(text, old(readPos), old(parts))
    {
      hide NetPath, AbsPath, RelPath, Query;
      var pos := readPos;
      ok := NetPathRule();
      if !ok {
        ok := AbsPathRule();
        if !ok {
          ok := RelPathRule();
        }
      }
      var mark := IsChar('?');
      if mark {
        QueryRule();
      }
      if !ok {
        readPos := pos;
      }
    }

    method AbsoluteUriRule() returns (ok: bool)
      requires Valid()
      modifies this`readPos, this`parts
      ensures Valid() && State(ok) == AbsoluteUri(text, old(readPos), old(parts))
    {
      hide Scheme, HierPart, OpaquePart;
      var pos := readPos;
      ok := SchemeRule();
      if ok {
        ok := IsChar(':');
        if ok {
          ok := HierPartRule();
          if !ok {
            ok := OpaquePartRule();
          }
        } else {
          parts := parts.(scheme := Unset);
        }
      }
      if !ok {
        readPos := pos;
      }
    }

    method UriReferenceRule() returns (ok: bool)
      requires Valid()
      modifies this`readPos, this`parts
      ensures Valid() && State(ok) == UriReference(text, old(readPos), old(parts))
    {
      hide AbsoluteUri, RelativeUri, Fragment;
      var pos := readPos;
      ok := AbsoluteUriRule();
      if !ok {
        ok := RelativeUriRule();
      }
      var mark := IsChar('#');
      if mark {
        FragmentRule();
        ok := true;
      }
      if !ok {
        readPos := pos;
      }
    }
  }
}
