/** The read cursor of a string: positions run from 0 to the write position,
    and reading at the end yields the NUL character. */
module Cursor {
  import opened Memory

  function CharAt(t: seq<char>, p: nat): char { if p < |t| then t[p] else NUL }

  /** The position after stepping forward; the last step goes to the end. */
  function Next(t: seq<char>, p: nat): nat { if p + 1 < |t| then p + 1 else |t| }

  /** Whether stepping forward reports that there is more to read. */
  predicate HasNext(t: seq<char>, p: nat) { p + 1 < |t| }

  function Prev(t: seq<char>, p: nat): nat { if 0 < p <= |t| then p - 1 else |t| }

  predicate Is(t: seq<char>, p: nat, c: char) { CharAt(t, p) == c }
}
