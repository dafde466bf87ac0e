/** The string buffer: appending with reallocation, and substring search. */
module StringBuffer {
  import opened Chunks
  import opened Cursor
  import opened Memory

  /** A buffer as a value: its size, the bytes written, and its flags. */
  datatype Buffer = Buffer(size: nat, data: seq<char>, isInit: bool, isAlloc: bool, isNullTerminated: bool)

  /** What a reallocation keeps: nothing of a string not yet initialised, and
      not the last byte of a string that fills its buffer. */
  function Kept(b: Buffer): seq<char> {
    if !b.isInit then []
    else if |b.data| < b.size || b.data == [] then b.data
    else b.data[..|b.data| - 1]
  }

  /** Appending `n` bytes moves the string to a new array. */
  predicate Moves(b: Buffer, n: nat) { b.size <= |b.data| + n + 1 }

  function Append(b: Buffer, bytes: seq<char>): Buffer {
    if bytes == [] then b
    else
      var size := |b.data| + |bytes| + 1 + if b.isNullTerminated then 0 else 1;
      if Moves(b, |bytes|) then Buffer(size, Kept(b) + bytes, true, true, b.isNullTerminated)
      else b.(data := b.data + bytes, isInit := true)
  }

  function AppendAll(b: Buffer, pieces: seq<seq<char>>): Buffer
    decreases |pieces|
  {
    if pieces == [] then b else AppendAll(Append(b, pieces[0]), pieces[1..])
  }

  /** A buffer of its own with room behind the data; a new one is empty. */
  predicate Owned(b: Buffer) { b.isAlloc && |b.data| < b.size && (b.isInit || b.data == []) }

  /** An append keeps what was there exactly when no reallocation happens, or
      the string is initialised and does not fill its buffer. */
  lemma AppendKeepsIff(b: Buffer, bytes: seq<char>)
    requires |b.data| <= b.size
    ensures Append(b, bytes).data == b.data + bytes <==>
            bytes == [] || b.data == [] || !Moves(b, |bytes|) || (b.isInit && |b.data| < b.size)
  {
    assert b.data + [] == b.data;
    if Moves(b, |bytes|) && bytes != [] {
      assert |Append(b, bytes).data| == |Kept(b)| + |bytes|;
    }
  }

  /** Appending to a string that fills a borrowed array loses its last byte. */
  lemma FullStringLosesItsEnd(b: Buffer, bytes: seq<char>)
    requires bytes != [] && b.isInit && b.data != [] && |b.data| == b.size
    ensures Append(b, bytes).data == b.data[..|b.data| - 1] + bytes
  {
  }

  lemma OneAppend(b: Buffer, bytes: seq<char>)
    requires Owned(b)
    ensures Owned(Append(b, bytes)) && Append(b, bytes).data == b.data + bytes
    ensures Append(b, bytes).isNullTerminated == b.isNullTerminated
  {
    AppendKeepsIff(b, bytes);
  }

  /** The first append to a zeroed struct. */
  lemma FirstAppend(b: Buffer, bytes: seq<char>)
    requires b == Buffer(0, [], false, false, false) && bytes != []
    ensures Owned(Append(b, bytes)) && Append(b, bytes).data == bytes
  {
  }

  /** Bytes a buffer has room for in front of its terminator. */
  function Room(b: Buffer): nat {
    if !b.isNullTerminated then b.size else if b.size > 0 then b.size - 1 else 0
  }

  /** The room when an array of `size` bytes was asked for first. */
  function RoomAfter(b: Buffer, size: nat): nat {
    if size > 0 && (!b.isAlloc || b.size < size) then size - 1 else Room(b)
  }

  /** Any series of appends to an owned buffer is the concatenation of the
      pieces, and the room behind the data is kept by every reallocation. */
  lemma {:induction false} SeriesIsConcatenation(b: Buffer, pieces: seq<seq<char>>)
    requires Owned(b)
    ensures Owned(AppendAll(b, pieces)) && AppendAll(b, pieces).data == b.data + Concat(pieces)
    ensures AppendAll(b, pieces).isNullTerminated == b.isNullTerminated
    decreases |pieces|
  {
    if pieces == [] {
      assert b.data + [] == b.data;
    } else {
      OneAppend(b, pieces[0]);
      hide Append, Owned;
      SeriesIsConcatenation(Append(b, pieces[0]), pieces[1..]);
      assert b.data + pieces[0] + Concat(pieces[1..]) == b.data + Concat(pieces);
    }
  }

  /** The pattern stands at position `i` of the text. */
  predicate OccursAt(t: seq<char>, w: seq<char>, i: nat) { i + |w| <= |t| && t[i..i + |w|] == w }

  class String {
    var buf: array<char>
    var readPos: nat
    var writePos: nat
    var isInit: bool
    var isAlloc: bool
    var isNullTerminated: bool

    /** A zeroed struct. */
    constructor ()
      ensures Valid() && readPos == 0 && Abs() == Buffer(0, [], false, false, false) && fresh(buf)
    {
      buf, readPos, writePos := new char[0], 0, 0;
      isInit, isAlloc, isNullTerminated := false, false, false;
    }

    ghost predicate Valid()
      reads this
    {
      writePos <= buf.Length && readPos <= writePos
    }

    function Data(): (s: seq<char>)
      requires writePos <= buf.Length
      reads this`writePos, this`buf, buf
      ensures |s| == writePos
    {
      buf[..writePos]
    }

    function Abs(): Buffer
      requires writePos <= buf.Length
      reads this, buf
    {
      Buffer(buf.Length, Data(), isInit, isAlloc, isNullTerminated)
    }

    /** A new null-terminated array, unless the string owns one at least as large. */
    method Malloc(size: nat) returns (ok: bool)
      requires Valid()
      modifies this
      ensures Valid() && ok == (size > 0 && (!old(isAlloc) || old(buf).Length < size))
      ensures ok ==> fresh(buf) && Abs() == Buffer(size, [], false, true, true) && readPos == 0 && Owned(Abs())
      ensures !ok ==> buf == old(buf) && Abs() == old(Abs()) && readPos == old(readPos)
    {
      ok := size > 0 && (!isAlloc || buf.Length < size);
      if ok {
        buf := new char[size];
        readPos, writePos := 0, 0;
        isInit, isAlloc, isNullTerminated := false, true, true;
      }
    }

    /** Forgets the data and keeps the array. */
    method Clean()
      requires Valid()
      modifies this`readPos, this`writePos
      ensures Valid() && Abs() == old(Abs()).(data := [])
    {
      readPos, writePos := 0, 0;
    }

    /** A new array with what is kept; none for size 0 or a smaller one. */
    method Realloc(size: nat)
      requires Valid()
      modifies this
      ensures size == 0 || size < old(buf).Length ==>
        Valid() && buf == old(buf) && Abs() == old(Abs()) && readPos == old(readPos)
      ensures size > 0 && size >= old(buf).Length ==>
        && Valid() && fresh(buf) && readPos == 0 && isAlloc && isInit == old(isInit)
        && isNullTerminated == old(isNullTerminated)
        && buf.Length == size + (if isNullTerminated then 0 else 1) && Data() == Kept(old(Abs()))
    {
      if size == 0 || size < buf.Length {
        return;
      }
      var a := new char[size + if isNullTerminated then 0 else 1];
      if isInit {
        if writePos >= buf.Length {
          writePos := if buf.Length > 0 then buf.Length - 1 else 0;
        }
        var end := CopyInto(a, 0, buf[..writePos]);
        if isNullTerminated {
          a[writePos] := NUL;
        }
        assert a[..writePos] == buf[..writePos];
      } else {
        writePos := 0;
      }
      buf := a;
      readPos := 0;
      isAlloc := true;
    }

    /** Borrows a null-terminated text. */
    method SetChars(text: seq<char>)
      requires text != []
      modifies this
      ensures Valid() && readPos == 0 && fresh(buf) && Abs() == Buffer(|text| + 1, text, true, false, true)
    {
      buf := new char[|text| + 1];
      var end := CopyInto(buf, 0, text + [NUL]);
      assert buf[..end][..|text|] == text;
      readPos, writePos := 0, |text|;
      isInit, isAlloc, isNullTerminated := true, false, true;
    }

    /** Appends bytes, and the terminator behind them. */
    method AddChars(bytes: seq<char>)
      requires Valid()
      modifies this, buf
      ensures Valid() && Abs() == Append(old(Abs()), bytes) && readPos == if bytes == [] then old(readPos) else 0
      ensures buf == old(buf) || fresh(buf)
      ensures bytes != [] && isNullTerminated ==> writePos < buf.Length && buf[writePos] == NUL
    {
      if bytes == [] {
        return;
      }
      var n := writePos + |bytes| + 1;
      if !isAlloc || buf.Length <= n {
        Realloc(n);
      }
      writePos := CopyInto(buf, writePos, bytes);
      if isNullTerminated {
        ghost var data := buf[..writePos];
        buf[writePos] := NUL;
        assert buf[..writePos] == data;
      }
      readPos := 0;
      isInit := true;
    }

    /** What an append of this string takes: the bytes not yet read. */
    function Unread(): seq<char>
      requires Valid()
      reads this, buf
    {
      if isInit && readPos < writePos && writePos + (if isNullTerminated then 1 else 0) <= buf.Length
      then buf[readPos..writePos] else []
    }

    /** Appends what another string has left to read. */
    method Add(s: String)
      requires Valid() && s.Valid() && (s.buf == buf ==> s == this)
      modifies this, buf
      ensures Valid() && (buf == old(buf) || fresh(buf))
      ensures Abs() == Append(old(Abs()), old(s.Unread()))
      ensures readPos == if old(s.Unread()) == [] then old(readPos) else 0
      ensures old(s.Unread()) != [] && isNullTerminated ==> writePos < buf.Length && buf[writePos] == NUL
    {
      if s.isInit {
        if s.readPos < s.writePos && s.writePos + (if s.isNullTerminated then 1 else 0) <= s.buf.Length {
          AddChars(s.buf[s.readPos..s.writePos]);
        }
      }
    }

    /** Sets the byte at the write position, when there is room for it and the terminator. */
    method SetChar(c: char)
      requires Valid()
      modifies buf
      ensures buf[..writePos] == old(buf[..writePos])
      ensures writePos + (if isNullTerminated then 1 else 0) < buf.Length ==> buf[writePos] == c
    {
      if writePos + (if isNullTerminated then 1 else 0) < buf.Length {
        buf[writePos] := c;
      }
    }

    /** Moves the write position; at the end of the buffer it stays. */
    method NextWritePos()
      requires Valid() && writePos <= Room(Abs())
      modifies this`writePos
      ensures Valid() && writePos == if old(writePos) < Room(old(Abs())) then old(writePos) + 1 else old(writePos)
    {
      var n := if isNullTerminated then 1 else 0;
      if writePos + n + 1 < buf.Length {
        writePos := writePos + 1;
      } else {
        writePos := if buf.Length > 0 then buf.Length - n else 0;
      }
    }

    /** Writes one byte: it is added when there is room for it, and lost otherwise. */
    method Put(c: char)
      requires Valid() && writePos <= Room(Abs())
      modifies this`writePos, buf
      ensures Valid() && writePos <= Room(Abs())
      ensures Data() == if old(writePos) < Room(old(Abs())) then old(Data()) + [c] else old(Data())
    {
      SetChar(c);
      NextWritePos();
    }

    function GetChar(): (c: char)
      requires Valid()
      reads this, buf
      ensures c == CharAt(Data(), readPos)
    {
      if readPos < writePos then buf[readPos] else NUL
    }

    method NextReadPos() returns (more: bool)
      requires Valid()
      modifies this`readPos
      ensures Valid() && more == HasNext(Data(), old(readPos)) && readPos == Next(Data(), old(readPos))
    {
      more := readPos + 1 < writePos;
      readPos := if more then readPos + 1 else writePos;
    }

    /** The least position of a pattern, or -1; a pattern with a zero byte, and
        an empty one, are never found. */
    method Find(search: String) returns (found: int)
      requires Valid() && search.Valid() && search != this
      modifies this`readPos, search`readPos
      ensures Valid() && search.Valid()
      ensures found >= 0 ==>
        && isInit && search.isInit
        && OccursAt(Data(), search.Data(), found) && search.Data() != [] && NUL !in search.Data()
        && forall i: nat :: i < found ==> !OccursAt(Data(), search.Data(), i)
      ensures found < 0 ==>
        found == -1 && (!isInit || !search.isInit || search.Data() == [] || NUL in search.Data()
                        || forall i: nat :: !OccursAt(Data(), search.Data(), i))
    {
      found := -1;
      if isInit && search.isInit {
        found := Search(search);
      }
    }

    /** The loop of the search, on two initialised strings. */
    method Search(search: String) returns (found: int)
      requires Valid() && search.Valid() && search != this
      modifies this`readPos, search`readPos
      ensures Valid() && search.Valid() && Least(Data(), search.Data(), found)
    {
      hide Scanning, Least, Data, GetChar;
      found := -1;
      var pos: nat, isFollow := 0, false;
      readPos, search.readPos := 0, 0;
      ghost var t, w := Data(), search.Data();
      ScanStart(t, w);
      var c, cSearch := GetChar(), search.GetChar();
      while cSearch != NUL
        invariant Valid() && search.Valid() && found == -1 && Data() == t && search.Data() == w
        invariant c == CharAt(t, readPos) && cSearch == CharAt(w, search.readPos)
        invariant (t == [] || readPos < |t|) && (w == [] || search.readPos < |w|)
        invariant Scanning(t, w, readPos, search.readPos, isFollow, pos)
        invariant (isFollow <==> search.readPos > 0) && (isFollow ==> pos <= readPos)
        decreases |t| - (if isFollow then pos else readPos), |t| - readPos
      {
        if c == cSearch {
          ScanMatch(t, w, readPos, search.readPos, isFollow, pos);
          if !isFollow {
            isFollow := true;
            pos := readPos;
          }
          var rest := search.NextReadPos();
          if !rest {
            return pos;
          }
          cSearch := search.GetChar();
        } else {
          ScanMismatch(t, w, readPos, search.readPos, isFollow, pos);
          if isFollow {
            isFollow := false;
            search.readPos := 0;
            cSearch := search.GetChar();
            readPos := pos;
          }
        }
        var more := NextReadPos();
        if !more {
          ScanOver(t, w, search.readPos, isFollow, pos);
          return;
        }
        c := GetChar();
      }
      ScanNul(t, w, search.readPos);
    }
  }

  /** The least position of a pattern, or -1 when there is none or the pattern
      cannot be searched for. */
  ghost predicate Least(t: seq<char>, w: seq<char>, found: int) {
    if found >= 0 then OccursAt(t, w, found) && w != [] && NUL !in w && NowhereBefore(t, w, found)
    else found == -1 && (w == [] || NUL in w || forall i: nat :: !OccursAt(t, w, i))
  }

  /** Where the search stands: `q` characters of the pattern follow `pos`, and
      the pattern starts nowhere before. */
  predicate Scanning(t: seq<char>, w: seq<char>, r: nat, q: nat, isFollow: bool, pos: nat) {
    && q <= |w| && r <= |t| && (isFollow <==> q > 0) && (isFollow ==> r == pos + q && t[pos..r] == w[..q])
    && (forall k :: 0 <= k < q ==> w[k] != NUL)
    && NowhereBefore(t, w, if isFollow then pos else r)
  }

  predicate NowhereBefore(t: seq<char>, w: seq<char>, n: nat) { forall i: nat :: i < n ==> !OccursAt(t, w, i) }

  lemma ScanStart(t: seq<char>, w: seq<char>)
    ensures Scanning(t, w, 0, 0, false, 0)
  {
  }

  lemma ScanMatch(t: seq<char>, w: seq<char>, r: nat, q: nat, isFollow: bool, pos: nat)
    requires Scanning(t, w, r, q, isFollow, pos) && r < |t| && q < |w| && t[r] == w[q] != NUL
    ensures var p := if isFollow then pos else r;
      && Scanning(t, w, r + 1, q + 1, true, p)
      && (q + 1 == |w| ==> Least(t, w, p))
  {
    var p := if isFollow then pos else r;
    assert t[p..r + 1] == t[p..r] + [t[r]] && w[..q + 1] == w[..q] + [w[q]];
    if q + 1 == |w| { assert w[..q + 1] == w; }
  }

  lemma ScanMismatch(t: seq<char>, w: seq<char>, r: nat, q: nat, isFollow: bool, pos: nat)
    requires Scanning(t, w, r, q, isFollow, pos) && q < |w| && (r < |t| ==> t[r] != w[q])
    ensures var p := if isFollow then pos else r;
      p < |t| ==> Scanning(t, w, p + 1, 0, false, pos)
    ensures |t| == 0 ==> !isFollow && Scanning(t, w, 0, 0, false, pos)
  {
  }

  lemma ScanOver(t: seq<char>, w: seq<char>, q: nat, isFollow: bool, pos: nat)
    requires Scanning(t, w, |t|, q, isFollow, pos) && q < |w|
    ensures Least(t, w, -1)
  {
  }

  lemma ScanNul(t: seq<char>, w: seq<char>, q: nat)
    requires CharAt(w, q) == NUL && (w == [] || q < |w|)
    ensures Least(t, w, -1)
  {
  }

  /** When an append moves the string, in bytes: fewer than two would be left
      over; the new array has one byte behind the data, two when the string is
      not null-terminated. */
  lemma AppendSize(b: Buffer, bytes: seq<char>)
    requires bytes != [] && |b.data| <= b.size
    ensures var a, need := Append(b, bytes), |b.data| + |bytes|;
      && a.size == (if need + 2 <= b.size then b.size else if b.isNullTerminated then need + 1 else need + 2)
      && (need + 2 <= b.size ==> a.isAlloc == b.isAlloc) && (need + 2 > b.size ==> a.isAlloc)
      && a.isInit && |a.data| < a.size
    ensures Append(b, []) == b
  {
  }
}
