/** Bytes in arrays. */
module Memory {
  const NUL: char := '\0'

  /** Copies bytes into an array, from a position on. */
  method CopyInto(buf: array<char>, at: nat, bytes: seq<char>) returns (end: nat)
    requires at + |bytes| <= buf.Length
    modifies buf
    ensures end == at + |bytes| && buf[..end] == old(buf[..at]) + bytes
  {
    forall k | 0 <= k < |bytes| {
      buf[at + k] := bytes[k];
    }
    end := at + |bytes|;
  }
}
