/** The tables of the request-head parser: methods, and header names by slot. */
module HttpTables {
  const METHODS: seq<seq<char>> :=
    ["OPTIONS", "GET", "HEAD", "POST", "PUT", "DELETE", "TRACE", "CONNECT"]

  const METHOD_GET := 1
  const METHOD_PUT := 4

  const GENERAL_HEADERS: seq<seq<char>> :=
    ["cache-control", "connection", "date", "pragma", "trailer", "transfer-encoding", "upgrade", "via", "warning"]

  const ENTITY_HEADERS: seq<seq<char>> :=
    ["allow", "content-encoding", "content-language", "content-length", "content-location", "content-md5",
     "content-range", "content-type", "expires", "last-modified"]

  const REQUEST_HEADERS: seq<seq<char>> :=
    ["accept", "accept-charset", "accept-encoding", "accept-language", "authorization", "expect", "from", "host",
     "if-match", "if-modified-since", "if-none-match", "if-range", "if-unmodified-since", "max-forwards",
     "proxy-authorization", "range", "referer", "te", "user-agent"]

  const GENERAL_START := 0
  const ENTITY_START := 9
  const REQUEST_START := 19
  const SLOTS := 38

  /** The name a header slot is for, in lower case. */
  function HeaderName(slot: nat): (name: seq<char>)
    requires slot < SLOTS
  {
    if slot < ENTITY_START then GENERAL_HEADERS[slot]
    else if slot < REQUEST_START then ENTITY_HEADERS[slot - ENTITY_START]
    else REQUEST_HEADERS[slot - REQUEST_START]
  }

  predicate IsWord(w: seq<char>) { w != [] && ':' !in w && '\r' !in w }

  lemma NamesAreWords(slot: nat)
    requires slot < SLOTS
    ensures IsWord(HeaderName(slot))
  {
    if slot < ENTITY_START {
      assert IsWord(GENERAL_HEADERS[slot]);
    } else if slot < REQUEST_START {
      assert IsWord(ENTITY_HEADERS[slot - ENTITY_START]);
    } else {
      RequestNamesAreWords(slot - REQUEST_START);
    }
  }

  lemma RequestNamesAreWords(i: nat)
    requires i < |REQUEST_HEADERS|
    ensures IsWord(REQUEST_HEADERS[i])
  {
  }

  lemma NamesDiffer(i: nat, j: nat)
    requires i < j < SLOTS
    ensures HeaderName(i) != HeaderName(j)
  {
    if j < ENTITY_START {
      assert GENERAL_HEADERS[i] != GENERAL_HEADERS[j];
    } else if j < REQUEST_START {
      if i < ENTITY_START {
        assert GENERAL_HEADERS[i] != ENTITY_HEADERS[j - ENTITY_START];
      } else {
        assert ENTITY_HEADERS[i - ENTITY_START] != ENTITY_HEADERS[j - ENTITY_START];
      }
    } else {
      RequestNamesDiffer(i, j - REQUEST_START);
    }
  }

  lemma RequestNamesDiffer(i: nat, j: nat)
    requires i < j + REQUEST_START && j < 19
    ensures HeaderName(i) != REQUEST_HEADERS[j]
  {
    if i < ENTITY_START {
      assert GENERAL_HEADERS[i] != REQUEST_HEADERS[j];
    } else if i < REQUEST_START {
      assert ENTITY_HEADERS[i - ENTITY_START] != REQUEST_HEADERS[j];
    } else {
      assert REQUEST_HEADERS[i - REQUEST_START] != REQUEST_HEADERS[j];
    }
  }
}
