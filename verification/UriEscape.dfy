/** Percent-escaping of URI text and its reversal (section 2.4 of RFC 2396). */
module UriEscape {
  import opened Options
  import opened Chunks
  import opened Cursor
  import opened UriGrammar
  import opened Memory
  import opened StringBuffer

  // -------------------------------------------------------------- characters

  predicate Control(c: char) { c <= 31 as char || c == 127 as char }

  /** Characters the grammar excludes, and reserved ones when asked for. */
  predicate Excluded(c: char, reserved: bool) {
    Control(c) || c == ' ' || c in "<>#%\"" || c in "{}|\\^[]`" || (reserved && Reserved(c))
  }

  function HexDigit(n: nat): char
    requires n < 16
  {
    if n < 10 then '0' + n as char else 'A' + (n - 10) as char
  }

  /** The value of a hex digit; the six characters behind '9' pass for ten to fifteen. */
  function HexValue(c: char): (v: Option<nat>)
    ensures v.Some? ==> v.value < 16
  {
    var up := if 'a' <= c <= 'f' then c - 32 as char else c;
    var low := if 'A' <= up <= 'F' then up - 7 as char else up;
    if '0' <= low <= '?' then Some(low as nat - '0' as nat) else None
  }

  function UnescapeChar(high: char, low: char): (c: Option<char>)
  {
    match (HexValue(high), HexValue(low))
    case (Some(h), Some(l)) => Some((16 * h + l) as char)
    case _ => None
  }

  lemma HexDigitValue(n: nat)
    requires n < 16
    ensures HexValue(HexDigit(n)) == Some(n)
  {
  }

  /** A byte comes back from its two hex digits. */
  lemma CharRoundTrip(c: char)
    requires c < 256 as char
    ensures UnescapeChar(HexDigit(c as nat / 16), HexDigit(c as nat % 16)) == Some(c)
  {
    HexDigitValue(c as nat / 16);
    HexDigitValue(c as nat % 16);
  }

  // -------------------------------------------------------------------- text

  function EscapedChar(c: char, reserved: bool): (w: seq<char>)
    ensures 1 <= |w| <= 3
  {
    if Excluded(c, reserved) then ['%', HexDigit(c as nat / 16), HexDigit(c as nat % 16)] else [c]
  }

  function Escaped(s: seq<char>, reserved: bool): (e: seq<char>) {
    if s == [] then [] else EscapedChar(s[0], reserved) + Escaped(s[1..], reserved)
  }

  /** What a decoded escape is written as: the code writes its low hex digit,
      the documented reading is the byte itself. */
  datatype Mode = AsWritten | AsDocumented

  /** What the escape loop writes for the escape `high`, `low` of byte `c`. */
  function Decoded(mode: Mode, keep: bool, high: char, low: char, c: char): (w: seq<char>)
    ensures 1 <= |w| <= 3
  {
    if keep then (if Unreserved(c) then [c] else ['%', high, low])
    else if mode.AsWritten? then [low]
    else [c]
  }

  datatype Text = Text(ok: bool, bytes: seq<char>)

  /** Unescaping, of all escapes or only of unreserved characters; an escape
      that does not decode ends it. */
  function Unescaped(mode: Mode, keep: bool, e: seq<char>, last: bool): Text
    decreases |e|
  {
    if e == [] then Text(true, [])
    else if e[0] != '%' then
      var r := Unescaped(mode, keep, e[1..], last);
      Text(r.ok, [e[0]] + r.bytes)
    else if |e| < 3 then Text(last, [])
    else
      match UnescapeChar(e[1], e[2])
      case None => Text(false, [])
      case Some(c) =>
        var r := Unescaped(mode, keep, e[3..], true);
        Text(r.ok, Decoded(mode, keep, e[1], e[2], c) + r.bytes)
  }

  /** What the loops read: an empty text gives one NUL byte. */
  function Read(s: seq<char>): seq<char> { if s == [] then [NUL] else s }

  /** The escape function on a zeroed string: its buffer has three bytes for
      each of the text, the terminator included. */
  function WrittenEscape(s: seq<char>, reserved: bool): seq<char> {
    AtMost(Escaped(Read(s), reserved), if s == [] then 0 else 3 * |s| - 1)
  }

  /** The unescape function on a zeroed string: its buffer is as long as the
      escaped text, the terminator included. */
  function WrittenUnescape(e: seq<char>, keep: bool): Text {
    var r := Unescaped(AsWritten, keep, Read(e), false);
    Text(r.ok, AtMost(r.bytes, if e == [] then 0 else |e| - 1))
  }

  lemma {:induction false} AtMostThreefold(s: seq<char>, reserved: bool)
    ensures |s| <= |Escaped(s, reserved)| <= 3 * |s|
  {
    if s != [] { AtMostThreefold(s[1..], reserved); }
  }

  lemma ExcludedIsByte(c: char, reserved: bool)
    ensures Excluded(c, reserved) ==> c < 128 as char
    ensures !Excluded('0', reserved)
  {
  }

  /** The escape of the first character decodes, whatever the mode. */
  lemma UnescapeFirst(mode: Mode, keep: bool, c: char, reserved: bool, rest: seq<char>, last: bool)
    ensures var e := EscapedChar(c, reserved) + rest;
      var high, low := HexDigit(c as nat / 16 % 16), HexDigit(c as nat % 16);
      var r := Unescaped(mode, keep, rest, if Excluded(c, reserved) then true else last);
      Unescaped(mode, keep, e, last) ==
      Text(r.ok, (if Excluded(c, reserved) then Decoded(mode, keep, high, low, c) else [c]) + r.bytes)
  {
    var e := EscapedChar(c, reserved) + rest;
    ExcludedIsByte(c, reserved);
    if Excluded(c, reserved) {
      CharRoundTrip(c);
      assert e[3..] == rest && c as nat / 16 % 16 == c as nat / 16;
    } else {
      assert e[1..] == rest && c != '%';
    }
  }

  /** As documented, unescaping undoes escaping. */
  lemma {:induction false} DocumentedUndoes(s: seq<char>, reserved: bool, last: bool)
    ensures Unescaped(AsDocumented, false, Escaped(s, reserved), last) == Text(true, s)
  {
    if s != [] {
      hide Excluded, Unescaped, EscapedChar;
      UnescapeFirst(AsDocumented, false, s[0], reserved, Escaped(s[1..], reserved), last);
      DocumentedUndoes(s[1..], reserved, if Excluded(s[0], reserved) then true else last);
      assert [s[0]] + s[1..] == s;
    } else {
      assert Unescaped(AsDocumented, false, [], last) == Text(true, []);
    }
  }

  /** The text with every escaped byte replaced by its low hex digit. */
  function Damaged(s: seq<char>, reserved: bool): (d: seq<char>)
    ensures |d| == |s|
  {
    if s == [] then []
    else [if Excluded(s[0], reserved) then HexDigit(s[0] as nat % 16) else s[0]] + Damaged(s[1..], reserved)
  }

  lemma HexDigitStays(c: char, n: nat, reserved: bool)
    requires Excluded(c, reserved) && n < 16
    ensures HexDigit(n) != c
  {
  }

  lemma {:induction false} UndamagedIsPlain(s: seq<char>, reserved: bool)
    requires Damaged(s, reserved) == s
    ensures Escaped(s, reserved) == s
  {
    if s != [] {
      assert Damaged(s, reserved)[0] == s[0] && Damaged(s, reserved)[1..] == Damaged(s[1..], reserved);
      if Excluded(s[0], reserved) { HexDigitStays(s[0], s[0] as nat % 16, reserved); }
      UndamagedIsPlain(s[1..], reserved);
    }
  }

  /** An escape that is cut off decodes to nothing. */
  lemma CutEscape(c: char, reserved: bool, rest: seq<char>, k: nat, last: bool)
    requires 0 < k < |EscapedChar(c, reserved)|
    ensures Unescaped(AsWritten, false, (EscapedChar(c, reserved) + rest)[..k], last).bytes == []
  {
    var e := EscapedChar(c, reserved) + rest;
    assert e[..k][0] == '%' && |e[..k]| < 3;
  }

  lemma CutBehind(w: seq<char>, rest: seq<char>, k: nat)
    requires |w| <= k <= |w + rest|
    ensures (w + rest)[..k] == w + rest[..k - |w|]
  {
  }

  /** As written, whatever is left of an escaped text decodes to the beginning
      of the damaged text. */
  lemma {:induction false} WrittenDamages(s: seq<char>, reserved: bool, k: nat, last: bool)
    requires k <= |Escaped(s, reserved)|
    ensures Unescaped(AsWritten, false, Escaped(s, reserved)[..k], last).bytes <= Damaged(s, reserved)
  {
    hide Excluded, Unescaped, EscapedChar;
    if s == [] || k == 0 {
      assert Unescaped(AsWritten, false, [], last).bytes == [] by { NothingWritten(last); }
      assert Escaped(s, reserved)[..k] == [];
    } else {
      var w, rest := EscapedChar(s[0], reserved), Escaped(s[1..], reserved);
      if k >= |w| {
        CutBehind(w, rest, k);
        UnescapeFirst(AsWritten, false, s[0], reserved, rest[..k - |w|], last);
        WrittenDamages(s[1..], reserved, k - |w|, if Excluded(s[0], reserved) then true else last);
      } else {
        CutEscape(s[0], reserved, rest, k, last);
      }
    }
  }

  lemma NothingWritten(last: bool)
    ensures Unescaped(AsWritten, false, [], last).bytes == []
  {
  }

  /** As written, unescaping never undoes escaping of any byte, for either flag. */
  lemma WrittenUndoesIff(s: seq<char>, reserved: bool)
    ensures WrittenUnescape(WrittenEscape(s, reserved), false).bytes == s <==> s == []
  {
    hide Unescaped, Escaped, Damaged;
    if s != [] {
      var full := Escaped(s, reserved);
      AtMostThreefold(s, reserved);
      var k := if |full| < 3 * |s| then |full| else 3 * |s| - 1;
      assert WrittenEscape(s, reserved) == full[..k];
      WrittenDamages(s, reserved, k, false);
      var d := Unescaped(AsWritten, false, full[..k], false).bytes;
      if AtMost(d, k - 1) == s {
        assert d == Damaged(s, reserved) == s;
        UndamagedIsPlain(s, reserved);
      }
    }
  }

  // ------------------------------------------------- unreserved characters

  /** Every `%` starts an escape that decodes. */
  predicate WellFormed(e: seq<char>)
    decreases |e|
  {
    e == [] ||
    (if e[0] != '%' then WellFormed(e[1..])
     else |e| >= 3 && UnescapeChar(e[1], e[2]).Some? && WellFormed(e[3..]))
  }

  lemma UnescapeEscape(mode: Mode, keep: bool, high: char, low: char, rest: seq<char>, last: bool)
    requires UnescapeChar(high, low).Some?
    ensures var r := Unescaped(mode, keep, rest, true);
      Unescaped(mode, keep, ['%', high, low] + rest, last) ==
      Text(r.ok, Decoded(mode, keep, high, low, UnescapeChar(high, low).value) + r.bytes)
  {
    var e := ['%', high, low] + rest;
    assert e[3..] == rest;
  }

  lemma UnescapePlain(mode: Mode, keep: bool, c: char, rest: seq<char>, last: bool)
    requires c != '%'
    ensures var r := Unescaped(mode, keep, rest, last);
      Unescaped(mode, keep, [c] + rest, last) == Text(r.ok, [c] + r.bytes)
  {
    assert ([c] + rest)[1..] == rest;
  }

  lemma {:induction false} LastDoesNotMatter(mode: Mode, keep: bool, e: seq<char>, a: bool, b: bool)
    requires WellFormed(e)
    ensures Unescaped(mode, keep, e, a) == Unescaped(mode, keep, e, b) && Unescaped(mode, keep, e, a).ok
    decreases |e|
  {
    hide UnescapeChar, Decoded;
    if e != [] {
      if e[0] != '%' { LastDoesNotMatter(mode, keep, e[1..], a, b); }
      else { LastDoesNotMatter(mode, keep, e[3..], true, true); }
    }
  }

  /** Unescaping the unreserved characters of a well-formed text leaves a
      well-formed text with the same full decoding, and doing it again changes
      nothing. */
  lemma {:induction false} UnreservedKeepsMeaning(mode: Mode, e: seq<char>)
    requires WellFormed(e)
    ensures var k := Unescaped(mode, true, e, true).bytes;
      && WellFormed(k)
      && Unescaped(AsDocumented, false, k, true) == Unescaped(AsDocumented, false, e, true)
      && Unescaped(mode, true, k, true).bytes == k
    decreases |e|
  {
    hide UnescapeChar, Unescaped, Unreserved;
    if e == [] {
      NothingToUnescape(mode);
    } else if e[0] != '%' {
      var k := Unescaped(mode, true, e[1..], true).bytes;
      assert e == [e[0]] + e[1..] && ([e[0]] + k)[1..] == k;
      UnreservedKeepsMeaning(mode, e[1..]);
      UnescapePlain(mode, true, e[0], e[1..], true);
      UnescapePlain(AsDocumented, false, e[0], e[1..], true);
      UnescapePlain(AsDocumented, false, e[0], k, true);
      UnescapePlain(mode, true, e[0], k, true);
    } else {
      var k := Unescaped(mode, true, e[3..], true).bytes;
      var c := UnescapeChar(e[1], e[2]).value;
      assert e == ['%', e[1], e[2]] + e[3..];
      UnreservedKeepsMeaning(mode, e[3..]);
      UnescapeEscape(mode, true, e[1], e[2], e[3..], true);
      UnescapeEscape(AsDocumented, false, e[1], e[2], e[3..], true);
      if Unreserved(c) {
        PercentIsReserved(c);
        assert ([c] + k)[1..] == k;
        UnescapePlain(AsDocumented, false, c, k, true);
        UnescapePlain(mode, true, c, k, true);
      } else {
        assert (['%', e[1], e[2]] + k)[3..] == k;
        UnescapeEscape(AsDocumented, false, e[1], e[2], k, true);
        UnescapeEscape(mode, true, e[1], e[2], k, true);
      }
    }
  }

  /** The text has an escape of an unreserved character. */
  predicate HasUnreserved(e: seq<char>)
    decreases |e|
  {
    e != [] &&
    if e[0] != '%' then HasUnreserved(e[1..])
    else |e| >= 3 && ((UnescapeChar(e[1], e[2]).Some? && Unreserved(UnescapeChar(e[1], e[2]).value))
                      || HasUnreserved(e[3..]))
  }

  /** Unescaping the unreserved characters shortens a text exactly when it has
      an escape of one, and leaves it alone otherwise. */
  lemma {:induction false} ShrinksIff(mode: Mode, e: seq<char>, last: bool)
    requires WellFormed(e)
    ensures var k := Unescaped(mode, true, e, last).bytes;
      && |k| <= |e| && (e != [] ==> k != []) && (|k| < |e| <==> HasUnreserved(e)) && (k == e <==> !HasUnreserved(e))
    decreases |e|
  {
    hide UnescapeChar, Unreserved;
    if e != [] {
      if e[0] != '%' {
        ShrinksIff(mode, e[1..], last);
        assert e == [e[0]] + e[1..];
      } else {
        ShrinksIff(mode, e[3..], true);
        assert e == ['%', e[1], e[2]] + e[3..];
      }
    }
  }

  /** Losing the last byte loses the last character of the meaning. */
  lemma {:induction false} CutLosesMeaning(e: seq<char>, a: bool, b: bool)
    requires WellFormed(e) && e != []
    ensures |Unescaped(AsDocumented, false, e[..|e| - 1], a).bytes| < |Unescaped(AsDocumented, false, e, b).bytes|
    decreases |e|
  {
    hide UnescapeChar;
    var cut := e[..|e| - 1];
    if e[0] != '%' {
      if |e| > 1 {
        assert cut[1..] == e[1..][..|e| - 2];
        CutLosesMeaning(e[1..], a, b);
      }
    } else if |e| > 3 {
      assert cut[1] == e[1] && cut[2] == e[2] && cut[3..] == e[3..][..|e| - 4];
      CutLosesMeaning(e[3..], true, true);
    }
  }

  /** As written, unescaping the unreserved characters of a well-formed text
      keeps its full decoding exactly when it has an escape of one: otherwise
      the last byte finds no room. */
  lemma WrittenKeepsMeaningIff(e: seq<char>)
    requires WellFormed(e) && e != []
    ensures var meaning := Unescaped(AsDocumented, false, e, true).bytes;
      Unescaped(AsDocumented, false, WrittenUnescape(e, true).bytes, true).bytes == meaning <==> HasUnreserved(e)
    ensures WrittenUnescape(e, true).bytes ==
            if HasUnreserved(e) then Unescaped(AsWritten, true, e, true).bytes else e[..|e| - 1]
  {
    hide Unescaped, UnescapeChar, Unreserved, WellFormed, HasUnreserved;
    LastDoesNotMatter(AsWritten, true, e, false, true);
    ShrinksIff(AsWritten, e, true);
    UnreservedKeepsMeaning(AsWritten, e);
    CutLosesMeaning(e, true, true);
  }

  /** Every call shortens a text, so doing it again changes it again, unless
      nothing is left. */
  lemma WrittenIdempotentIff(e: seq<char>)
    requires WellFormed(e) && e != []
    ensures var k := WrittenUnescape(e, true).bytes; WrittenUnescape(k, true).bytes == k <==> |e| == 1
  {
    hide Unescaped, UnescapeChar, Unreserved, WellFormed, HasUnreserved;
    var k := WrittenUnescape(e, true).bytes;
    WrittenKeepsMeaningIff(e);
    ShrinksIff(AsWritten, e, true);
    if |e| == 1 { OneByteIsPlain(e); }
    assert k != [] ==> |WrittenUnescape(k, true).bytes| < |k|;
  }

  lemma OneByteIsPlain(e: seq<char>)
    requires |e| == 1
    ensures !HasUnreserved(e)
  {
  }

  /** The one-letter text "a" is unescaped to nothing. */
  lemma PlainLetterIsLost()
    ensures WellFormed("a") && WrittenUnescape("a", true) == Text(true, "")
    ensures Unescaped(AsDocumented, false, "a", true) == Text(true, "a")
  {
    var e := "a";
    assert e[1..] == [];
    assert Unescaped(AsWritten, true, e, false) == Text(true, e);
  }

  lemma NothingToUnescape(mode: Mode)
    ensures Unescaped(mode, true, [], true) == Text(true, []) == Unescaped(AsDocumented, false, [], true)
  {
  }

  lemma PercentIsReserved(c: char)
    ensures Unreserved(c) ==> c != '%'
  {
  }

  // ------------------------------------------------------------- the methods

  method UnescapeByte(high: char, low: char) returns (ok: bool, c: char)
    ensures ok == UnescapeChar(high, low).Some?
    ensures ok ==> c == UnescapeChar(high, low).value
  {
    var value := 0;
    var i := 0;
    ok, c := false, NUL;
    while i < 2
      invariant i <= 2 && !ok
      invariant (i >= 1 ==> HexValue(low).Some?) && (i == 2 ==> HexValue(high).Some?)
      invariant value == (if i >= 1 then HexValue(low).value else 0) + (if i == 2 then 16 * HexValue(high).value else 0)
    {
      var digit := HexValue(if i == 0 then low else high);
      if digit.None? {
        return;
      }
      value := value + if i == 0 then digit.value else 16 * digit.value;
      i := i + 1;
    }
    ok, c := true, value as char;
  }

  /** A buffer holds what it has room for of `w`. */
  ghost predicate Holds(dest: String, w: seq<char>)
    reads dest, dest.buf
  {
    dest.Valid() && dest.Data() == AtMost(w, Room(dest.Abs()))
  }

  /** One byte more of what is to be written. */
  method PutNext(dest: String, ghost w: seq<char>, c: char) returns (ghost w': seq<char>)
    requires Holds(dest, w)
    modifies dest`writePos, dest.buf
    ensures Holds(dest, w') && w' == w + [c]
  {
    dest.Put(c);
    w' := w + [c];
  }

  /** The three bytes of an escape. */
  method PutEscape(dest: String, ghost w: seq<char>, high: char, low: char) returns (ghost w': seq<char>)
    requires Holds(dest, w)
    modifies dest`writePos, dest.buf
    ensures Holds(dest, w') && w' == w + ['%', high, low]
  {
    hide Holds;
    w' := PutNext(dest, w, '%');
    w' := PutNext(dest, w', high);
    w' := PutNext(dest, w', low);
    assert w + ['%'] + [high] + [low] == w + ['%', high, low];
  }

  /** What a decoded escape is written as. */
  method PutDecoded(dest: String, ghost w: seq<char>, keep: bool, high: char, low: char, byte: char)
    returns (ghost w': seq<char>)
    requires Holds(dest, w)
    modifies dest`writePos, dest.buf
    ensures Holds(dest, w') && w' == w + Decoded(AsWritten, keep, high, low, byte)
  {
    hide Holds, Unreserved;
    if keep {
      if Unreserved(byte) {
        w' := PutNext(dest, w, byte);
      } else {
        w' := PutEscape(dest, w, high, low);
      }
    } else {
      w' := PutNext(dest, w, low);
    }
  }

  /** The two digits behind a '%'; the cursor is left on the second. */
  method ReadDigits(src: String) returns (ok: bool, high: char, low: char)
    requires src.Valid() && src.readPos < src.writePos
    modifies src`readPos
    ensures src.Valid() && ok == (old(src.readPos) + 2 < src.writePos)
    ensures ok ==>
      && src.readPos == old(src.readPos) + 2
      && high == src.Data()[old(src.readPos) + 1] && low == src.Data()[old(src.readPos) + 2]
  {
    high, low := NUL, NUL;
    ok := src.NextReadPos();
    if ok {
      high := src.GetChar();
      ok := src.NextReadPos();
      if ok {
        low := src.GetChar();
      }
    }
  }

  /** Between two characters: `s` is what is read, `w` what is to be written. */
  ghost predicate Between(dest: String, src: String, s: seq<char>, w: seq<char>)
    reads dest, dest.buf, src, src.buf
  {
    dest != src && dest.buf != src.buf && src.Valid() && Read(src.Data()) == s && src.readPos < |s| && Holds(dest, w)
  }

  method EscapeOne(dest: String, src: String, reserved: bool, ghost s: seq<char>, ghost w: seq<char>)
    returns (ghost w': seq<char>)
    requires Between(dest, src, s, w)
    modifies dest`writePos, dest.buf
    ensures Between(dest, src, s, w') && w' == w + EscapedChar(s[src.readPos], reserved)
  {
    var c := src.GetChar();
    assert c == s[src.readPos];
    hide Excluded, Holds;
    if Excluded(c, reserved) {
      ExcludedIsByte(c, reserved);
      w' := PutEscape(dest, w, HexDigit(c as nat / 16), HexDigit(c as nat % 16));
    } else {
      w' := PutNext(dest, w, c);
    }
  }

  /** To the next character, if there is one. */
  method Forward(dest: String, src: String, ghost s: seq<char>, ghost w: seq<char>) returns (more: bool)
    requires Between(dest, src, s, w)
    modifies src`readPos
    ensures more == (old(src.readPos) + 1 < |s|) && src.Valid() && Holds(dest, w)
    ensures more ==> Between(dest, src, s, w) && src.readPos == old(src.readPos) + 1
  {
    hide Holds;
    more := src.NextReadPos();
  }

  /** An initialised, empty destination. */
  method Begin(dest: String)
    requires dest.Valid() && dest.readPos == 0
    modifies dest`isInit, dest`writePos
    ensures dest.isInit && Holds(dest, []) && Room(dest.Abs()) == Room(old(dest.Abs()))
  {
    dest.writePos := 0;
    dest.isInit := true;
  }

  lemma BetweenIs(dest: String, src: String, s: seq<char>, w: seq<char>)
    requires Between(dest, src, s, w)
    ensures src.readPos < |s| && src.Valid()
  {
  }

  /** What is written, and what the rest will add, is the escaped text. */
  predicate ToEscape(s: seq<char>, p: nat, reserved: bool, w: seq<char>)
    requires p <= |s|
  {
    w + Escaped(s[p..], reserved) == Escaped(s, reserved)
  }

  lemma EscapeStart(s: seq<char>, reserved: bool)
    ensures ToEscape(s, 0, reserved, [])
  {
    assert s[0..] == s && [] + Escaped(s, reserved) == Escaped(s, reserved);
  }

  lemma EscapeDone(s: seq<char>, p: nat, reserved: bool, w: seq<char>)
    requires p == |s| && ToEscape(s, p, reserved, w)
    ensures w == Escaped(s, reserved)
  {
    assert w + [] == w;
  }

  lemma EscapeNext(s: seq<char>, p: nat, reserved: bool, w: seq<char>)
    requires p < |s| && ToEscape(s, p, reserved, w)
    ensures ToEscape(s, p + 1, reserved, w + EscapedChar(s[p], reserved))
    ensures EscapedChar(s[p], reserved) ==
            if Excluded(s[p], reserved)
            then ['%', HexDigit(s[p] as nat / 16), HexDigit(s[p] as nat % 16)] else [s[p]]
  {
    assert s[p..][1..] == s[p + 1..];
    hide Excluded;
  }

  method EscapeLoop(dest: String, src: String, reserved: bool, ghost s: seq<char>)
    requires Between(dest, src, s, []) && src.readPos == 0
    modifies dest`writePos, dest.buf, src`readPos
    ensures src.Valid() && Holds(dest, Escaped(s, reserved))
  {
    hide Between, Holds, ToEscape, Escaped, EscapedChar, Excluded;
    ghost var w: seq<char> := [];
    EscapeStart(s, reserved);
    BetweenIs(dest, src, s, w);
    while true
      invariant Between(dest, src, s, w) && src.readPos < |s|
      invariant ToEscape(s, src.readPos, reserved, w)
      decreases |s| - src.readPos
    {
      EscapeNext(s, src.readPos, reserved, w);
      w := EscapeOne(dest, src, reserved, s, w);
      ghost var p := src.readPos;
      var more := Forward(dest, src, s, w);
      if !more {
        EscapeDone(s, p + 1, reserved, w);
        break;
      }
      BetweenIs(dest, src, s, w);
    }
  }

  /** Escapes a text into a string, after asking for three bytes for each of it. */
  method Escape(dest: String, src: String, reserved: bool)
    requires src.Valid() && dest.Valid() && dest != src
    requires dest.readPos == 0 && (dest.buf != src.buf || (src.writePos > 0 && !dest.isAlloc))
    modifies dest, dest.buf, src`readPos
    ensures dest.Valid() && src.Valid() && dest.isInit && src.Data() == old(src.Data())
    ensures dest.Data() ==
            AtMost(Escaped(Read(src.Data()), reserved), RoomAfter(old(dest.Abs()), 3 * |src.Data()|))
  {
    hide Escaped, AtMost;
    var ok := dest.Malloc(3 * src.writePos);
    Begin(dest);
    src.readPos := 0;
    EscapeLoop(dest, src, reserved, Read(src.Data()));
  }

  /** What is written, and what the rest will add, is the whole result. */
  predicate Rest(e: seq<char>, p: nat, keep: bool, ok: bool, w: seq<char>)
    requires p <= |e|
  {
    var r := Unescaped(AsWritten, keep, e[p..], ok);
    Unescaped(AsWritten, keep, e, false) == Text(r.ok, w + r.bytes)
  }

  lemma RestStart(e: seq<char>, keep: bool)
    ensures Rest(e, 0, keep, false, [])
  {
    assert e[0..] == e;
    assert [] + Unescaped(AsWritten, keep, e, false).bytes == Unescaped(AsWritten, keep, e, false).bytes;
  }

  lemma RestNext(e: seq<char>, p: nat, keep: bool, ok: bool, w: seq<char>)
    requires p < |e| && Rest(e, p, keep, ok, w)
    ensures e[p] != '%' ==> Rest(e, p + 1, keep, ok, w + [e[p]])
    ensures e[p] == '%' && p + 2 >= |e| ==> Unescaped(AsWritten, keep, e, false) == Text(ok, w)
    ensures e[p] == '%' && p + 2 < |e| ==>
      match UnescapeChar(e[p + 1], e[p + 2])
      case None => Unescaped(AsWritten, keep, e, false) == Text(false, w)
      case Some(c) => Rest(e, p + 3, keep, true, w + Decoded(AsWritten, keep, e[p + 1], e[p + 2], c))
  {
    var t := e[p..];
    assert t[0] == e[p] && t[1..] == e[p + 1..];
    assert |t| >= 3 ==> t[1] == e[p + 1] && t[2] == e[p + 2] && t[3..] == e[p + 3..];
    hide UnescapeChar, Decoded;
    var r := Unescaped(AsWritten, keep, t, ok);
    assert w + [] == w;
    if e[p] != '%' {
      var q := Unescaped(AsWritten, keep, t[1..], ok);
      assert w + ([e[p]] + q.bytes) == w + [e[p]] + q.bytes;
    } else if |t| >= 3 && UnescapeChar(t[1], t[2]).Some? {
      var d := Decoded(AsWritten, keep, t[1], t[2], UnescapeChar(t[1], t[2]).value);
      var q := Unescaped(AsWritten, keep, t[3..], true);
      assert w + (d + q.bytes) == w + d + q.bytes;
    }
  }

  lemma RestDone(e: seq<char>, p: nat, keep: bool, ok: bool, w: seq<char>)
    requires p == |e| && Rest(e, p, keep, ok, w)
    ensures Unescaped(AsWritten, keep, e, false) == Text(true, w)
  {
    assert w + [] == w;
  }

  method UnescapeLoop(dest: String, src: String, keep: bool, ghost e: seq<char>)
    returns (ok: bool, ghost w: seq<char>)
    requires Between(dest, src, e, []) && src.readPos == 0
    modifies dest`writePos, dest.buf, src`readPos
    ensures src.Valid() && Holds(dest, w) && Unescaped(AsWritten, keep, e, false) == Text(ok, w)
  {
    hide Between, Holds, Unescaped, UnescapeChar, Rest, Decoded;
    ok, w := false, [];
    RestStart(e, keep);
    BetweenIs(dest, src, e, w);
    while true
      invariant Between(dest, src, e, w) && src.readPos < |e|
      invariant Rest(e, src.readPos, keep, ok, w)
      decreases |e| - src.readPos
    {
      RestNext(e, src.readPos, keep, ok, w);
      ghost var p := src.readPos;
      var go;
      go, ok, w := UnescapeOne(dest, src, keep, ok, e, w);
      if !go {
        break;
      }
      p := src.readPos;
      var more := Forward(dest, src, e, w);
      if !more {
        RestDone(e, p + 1, keep, ok, w);
        ok := true;
        break;
      }
      BetweenIs(dest, src, e, w);
    }
  }

  /** One character or escape; stops at an escape that is cut off or does not decode. */
  method UnescapeOne(dest: String, src: String, keep: bool, last: bool, ghost e: seq<char>, ghost w: seq<char>)
    returns (go: bool, ok: bool, ghost w': seq<char>)
    requires Between(dest, src, e, w)
    modifies dest`writePos, dest.buf, src`readPos
    ensures src.Valid() && Holds(dest, w')
    ensures var p := old(src.readPos);
      if e[p] != '%' then go && ok == last && w' == w + [e[p]] && Between(dest, src, e, w') && src.readPos == p
      else if p + 2 >= |e| then !go && ok == last && w' == w
      else
        match UnescapeChar(e[p + 1], e[p + 2])
        case None => !go && !ok && w' == w
        case Some(c) =>
          go && ok && w' == w + Decoded(AsWritten, keep, e[p + 1], e[p + 2], c)
          && Between(dest, src, e, w') && src.readPos == p + 2
  {
    hide UnescapeChar, Decoded, Holds;
    var c := src.GetChar();
    assert c == e[src.readPos];
    go, ok, w' := true, last, w;
    if c == '%' {
      var more, high, low := ReadDigits(src);
      if !more {
        go := false;
        return;
      }
      var byte;
      ok, byte := UnescapeByte(high, low);
      go := ok;
      if ok {
        w' := PutDecoded(dest, w, keep, high, low, byte);
      }
    } else {
      w' := PutNext(dest, w, c);
    }
  }

  /** Unescapes a text into a string, after asking for as many bytes. */
  method Unescape(dest: String, src: String, keep: bool) returns (ok: bool)
    requires src.Valid() && dest.Valid() && dest != src
    requires dest.readPos == 0 && (dest.buf != src.buf || (src.writePos > 0 && !dest.isAlloc))
    modifies dest, dest.buf, src`readPos
    ensures dest.Valid() && src.Valid() && dest.isInit && src.Data() == old(src.Data())
    ensures var r := Unescaped(AsWritten, keep, Read(src.Data()), false);
      ok == r.ok && dest.Data() == AtMost(r.bytes, RoomAfter(old(dest.Abs()), |src.Data()|))
  {
    hide Unescaped, AtMost;
    var made := dest.Malloc(src.writePos);
    Begin(dest);
    src.readPos := 0;
    ghost var w;
    ok, w := UnescapeLoop(dest, src, keep, Read(src.Data()));
  }
}
