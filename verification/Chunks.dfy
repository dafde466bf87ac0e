/** Bytes that come in pieces. */
module Chunks {
  function Concat(chunks: seq<seq<char>>): seq<char> {
    if chunks == [] then [] else chunks[0] + Concat(chunks[1..])
  }

  /** The bytes there is room for. */
  function AtMost(s: seq<char>, room: nat): seq<char> { if |s| <= room then s else s[..room] }
}
