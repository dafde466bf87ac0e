/** The character classes of RFC 2396 against each other: section 2.4.3 excludes
    exactly the ASCII characters that are neither reserved nor unreserved, and
    each class of the grammar is the URI characters without some reserved ones. */
module UriChars {
  import opened Cursor
  import opened UriGrammar
  import opened Options
  import opened UriScan
  import opened UriEscape
  import StringBuffer

  /** Every ASCII character is reserved, unreserved or excluded, and only one of these. */
  lemma AsciiIsParted(c: char)
    requires c < 128 as char
    ensures Reserved(c) || Unreserved(c) || Excluded(c, false)
    ensures !(Reserved(c) && Unreserved(c)) && !(Reserved(c) && Excluded(c, false))
    ensures !(Unreserved(c) && Excluded(c, false))
  {
  }

  lemma BeyondAscii(c: char)
    requires c >= 128 as char
    ensures !Reserved(c) && !Unreserved(c) && !Excluded(c, true)
  {
  }

  /** Letters, digits and the nine marks, by code. */
  lemma UnreservedByCode(c: char)
    ensures var n := c as int;
      Unreserved(c) <==>
      48 <= n <= 57 || 65 <= n <= 90 || 97 <= n <= 122
      || n == 33 || 39 <= n <= 42 || n == 45 || n == 46 || n == 95 || n == 126
  {
  }

  lemma HexByCode(c: char)
    ensures var n := c as int; Hex(c) <==> 48 <= n <= 57 || 65 <= n <= 70 || 97 <= n <= 102
    ensures var n := c as int; Digit(c) <==> 48 <= n <= 57
    ensures var n := c as int; Alpha(c) <==> 65 <= n <= 90 || 97 <= n <= 122
  {
  }

  /** The characters of a URI are those of ASCII that are not excluded. */
  lemma UricLeavesOut(c: char)
    ensures In(Uric, c) <==> c < 128 as char && !Excluded(c, false)
  {
    if c < 128 as char { AsciiIsParted(c); } else { BeyondAscii(c); }
    hide Excluded, Unreserved, Reserved;
  }

  /** What each class leaves out of the reserved characters. */
  predicate LeftOut(cls: Class, c: char) {
    match cls
    case Uric => false
    case Pchar => c == ';' || c == '/' || c == '?'
    case PathChar => c == '?'
    case Userinfo => c == '/' || c == '?' || c == '@'
    case RelSegment => c == '/' || c == '?' || c == ':'
    case NoSlash => c == '/'
    case _ => true
  }

  lemma ClassLeavesOut(cls: Class, c: char)
    requires Escapes(cls)
    ensures In(cls, c) <==> In(Uric, c) && !LeftOut(cls, c)
  {
    UnreservedIsIn(c);
    hide Unreserved;
  }

  lemma UnreservedIsIn(c: char)
    ensures Unreserved(c) ==> c != ';' && c != '/' && c != '?' && c != '@' && c != ':'
  {
  }

  lemma PlainClasses(c: char)
    ensures In(Label, c) <==> Alpha(c) || Digit(c) || c == '-'
    ensures In(SchemeChar, c) <==> In(Label, c) || c == '+' || c == '.'
    ensures In(Number, c) <==> Digit(c)
  {
  }

  // ------------------------------------------------------------------ escaping

  /** The bytes an escaped text must not show, by code: controls and space,
      delimiters, unwise characters, and reserved ones when asked for. */
  predicate MustGo(c: char, reserved: bool) {
    var n := c as int;
    || n <= 32 || n == 34 || n == 35 || n == 37 || n == 60 || n == 62
    || 91 <= n <= 94 || n == 96 || 123 <= n <= 125 || n == 127
    || (reserved && (n == 36 || n == 38 || n == 43 || n == 44 || n == 47 || n == 58 || n == 59 || n == 61
                     || n == 63 || n == 64))
  }

  lemma ExcludedMustGo(c: char, reserved: bool)
    ensures Excluded(c, reserved) <==> MustGo(c, reserved)
  {
  }

  /** A digit of an escape. */
  predicate CapitalHex(c: char) { '0' <= c <= '9' || 'A' <= c <= 'F' }

  lemma HexDigitIs(n: nat)
    requires n < 16
    ensures CapitalHex(HexDigit(n)) && !MustGo(HexDigit(n), true)
  {
  }

  /** One byte: unchanged, or '%' and the two digits that decode to it. */
  lemma ByteIs(c: char, reserved: bool)
    ensures var w := EscapedChar(c, reserved);
      if MustGo(c, reserved)
      then |w| == 3 && w[0] == '%' && CapitalHex(w[1]) && CapitalHex(w[2]) && UnescapeChar(w[1], w[2]) == Some(c)
      else w == [c]
  {
    ExcludedMustGo(c, reserved);
    if MustGo(c, reserved) {
      CharRoundTrip(c);
      HexDigitIs(c as nat / 16);
      HexDigitIs(c as nat % 16);
    }
  }

  /** Texts are escaped byte by byte. */
  lemma {:induction false} EscapedJoin(a: seq<char>, b: seq<char>, reserved: bool)
    ensures Escaped(a + b, reserved) == Escaped(a, reserved) + Escaped(b, reserved)
    decreases |a|
  {
    if a == [] {
      assert a + b == b;
    } else {
      assert (a + b)[1..] == a[1..] + b;
      EscapedJoin(a[1..], b, reserved);
    }
  }

  /** No byte of an escaped text is one that must go, but the '%' of an escape. */
  lemma {:induction false} NothingLeft(s: seq<char>, reserved: bool, k: nat)
    requires k < |Escaped(s, reserved)|
    ensures Escaped(s, reserved)[k] == '%' || !MustGo(Escaped(s, reserved)[k], reserved)
    decreases |s|
  {
    hide MustGo, EscapedChar;
    ByteIs(s[0], reserved);
    var w := EscapedChar(s[0], reserved);
    if k >= |w| {
      NothingLeft(s[1..], reserved, k - |w|);
    } else if k > 0 {
      CapitalHexStays(w[k], reserved);
    }
  }

  lemma CapitalHexStays(c: char, reserved: bool)
    requires CapitalHex(c)
    ensures !MustGo(c, reserved)
  {
  }

  /** Every '%' of an escaped text starts an escape. */
  lemma {:induction false} EscapedIsWellFormed(s: seq<char>, reserved: bool)
    ensures WellFormed(Escaped(s, reserved))
    decreases |s|
  {
    hide MustGo, EscapedChar, UnescapeChar;
    if s != [] {
      ByteIs(s[0], reserved);
      PercentMustGo(reserved);
      var w, rest := EscapedChar(s[0], reserved), Escaped(s[1..], reserved);
      EscapedIsWellFormed(s[1..], reserved);
      var e := w + rest;
      assert e[|w|..] == rest;
    }
  }

  lemma PercentMustGo(reserved: bool)
    ensures MustGo('%', reserved)
  {
  }

  /** A text stays as it is exactly when no byte of it must go. */
  lemma {:induction false} UnchangedIff(s: seq<char>, reserved: bool)
    ensures Escaped(s, reserved) == s <==> forall k :: 0 <= k < |s| ==> !MustGo(s[k], reserved)
    decreases |s|
  {
    hide MustGo, EscapedChar;
    if s != [] {
      ByteIs(s[0], reserved);
      AtMostThreefold(s[1..], reserved);
      UnchangedIff(s[1..], reserved);
      var w, rest := EscapedChar(s[0], reserved), Escaped(s[1..], reserved);
      assert s == [s[0]] + s[1..];
      if w == [s[0]] {
        assert (w + rest)[1..] == rest && ([s[0]] + s[1..])[1..] == s[1..];
      } else {
        assert |w + rest| > |s|;
      }
      forall k | 0 < k < |s| ensures s[k] == s[1..][k - 1] {}
    }
  }

  /** A space becomes "%20", a brace "%7B". */
  lemma SpaceAndBrace()
    ensures Escaped(" ", false) == "%20" && Escaped("{", false) == "%7B"
  {
    assert " "[1..] == [] && "{"[1..] == [];
    assert EscapedChar(' ', false) == "%20" && EscapedChar('{', false) == "%7B";
  }

  /** A hex digit, or one of the six characters behind '9', which pass for ten to fifteen. */
  lemma DigitIff(c: char)
    ensures HexValue(c).Some? <==> Hex(c) || c == ':' || c == ';' || c == '<' || c == '=' || c == '>' || c == '?'
    ensures HexValue('9') == Some(9) && HexValue('a') == HexValue('A') == HexValue(':') == Some(10)
    ensures HexValue('f') == HexValue('F') == HexValue('?') == Some(15)
  {
  }

  // --------------------------------------------------------------- escapes

  /** Where escapes count, one is three bytes, and the byte behind it is passed
      unseen; elsewhere a '%' stops the loop. */
  lemma EscapeIsPassed(cls: Class, a: char, b: char, c: char)
    requires Hex(a) && Hex(b)
    ensures var t := ['%', a, b, c, '%'];
      && (Escapes(cls) <==> cls in {Uric, Pchar, Userinfo, RelSegment, NoSlash, PathChar})
      && Starts(cls, t, 0) == Escapes(cls)
      && (Escapes(cls) ==> Step(cls, t, 0) == 4 && Scan(cls, t, 0) == 5)
      && (!Escapes(cls) ==> Scan(cls, t, 0) == 0)
  {
    var t := ['%', a, b, c, '%'];
    NoPercent(cls);
    hide In, Hex;
    assert Scan(cls, t, 4) == if Escapes(cls) then 5 else 4 by {
      assert !IsEscape(t, 4) && !Starts(cls, t, 4);
    }
  }

  // ------------------------------------------------------------ cut-off escapes

  /** An escape that is cut off ends the text; the answer is then "ok" exactly
      when some escape came before it. */
  lemma {:induction false} CutOffIff(mode: Mode, keep: bool, e: seq<char>, cut: seq<char>, last: bool)
    requires WellFormed(e) && 0 < |cut| < 3 && cut[0] == '%'
    ensures var r := Unescaped(mode, keep, e + cut, last);
      (r.ok <==> last || '%' in e) && r.bytes == Unescaped(mode, keep, e, last).bytes
    decreases |e|
  {
    hide UnescapeChar, Decoded;
    var t := e + cut;
    if e == [] {
      assert t == cut;
    } else if e[0] != '%' {
      assert t[1..] == e[1..] + cut && e == [e[0]] + e[1..];
      CutOffIff(mode, keep, e[1..], cut, last);
    } else {
      assert t[3..] == e[3..] + cut && t[1] == e[1] && t[2] == e[2];
      CutOffIff(mode, keep, e[3..], cut, true);
    }
  }

  /** The code's buffers: three bytes for each of the text, and one for each,
      the terminator included in both. */
  lemma BuffersAreShort(s: seq<char>)
    requires s != []
    ensures var zeroed := StringBuffer.Buffer(0, [], false, false, false);
      StringBuffer.RoomAfter(zeroed, 3 * |s|) == 3 * |s| - 1 && StringBuffer.RoomAfter(zeroed, |s|) == |s| - 1
    ensures var owned := StringBuffer.Buffer(3 * |s|, [], true, true, true);
      && StringBuffer.RoomAfter(owned, 3 * |s|) == 3 * |s| - 1
      && StringBuffer.Room(owned.(isNullTerminated := false)) == 3 * |s|
  {
  }

  /** An escape whose digits do not decode ends the text with a failure. */
  lemma {:induction false} BadEscapeFails(mode: Mode, keep: bool, e: seq<char>, h: char, l: char, rest: seq<char>,
                                          last: bool)
    requires WellFormed(e) && UnescapeChar(h, l).None?
    ensures var r := Unescaped(mode, keep, e + (['%', h, l] + rest), last);
      !r.ok && r.bytes == Unescaped(mode, keep, e, last).bytes
    decreases |e|
  {
    hide UnescapeChar, Decoded;
    var bad := ['%', h, l] + rest;
    var t := e + bad;
    if e == [] {
      assert t == bad;
    } else if e[0] != '%' {
      assert t[1..] == e[1..] + bad;
      BadEscapeFails(mode, keep, e[1..], h, l, rest, last);
    } else {
      assert t[3..] == e[3..] + bad && t[1] == e[1] && t[2] == e[2];
      BadEscapeFails(mode, keep, e[3..], h, l, rest, true);
    }
  }

  /** Into a destination that has room, the empty text is escaped to "%00" and
      unescaped to a NUL byte, since the loops read before they test. */
  lemma EmptyTextIsNul(mode: Mode, keep: bool, reserved: bool)
    ensures Escaped(Read([]), reserved) == "%00"
    ensures Unescaped(mode, keep, Read([]), false) == Text(true, ['\0'])
  {
    assert Read([])[1..] == [];
  }
}
