/** Line breaks and header lines of a request head, as the parser walks them and
    as a line-based reading of the text (sections 4.1 and 4.2 of RFC 2616). */
module HttpLines {
  import opened Options
  import opened UriGrammar
  import opened HttpTables

  predicate IsCrlf(t: seq<char>, k: nat) { k + 1 < |t| && t[k] == '\r' && t[k + 1] == '\n' }

  /** The first CRLF at or behind `p`. */
  function FindCrlf(t: seq<char>, p: nat): (k: Option<nat>)
    ensures k.Some? ==> p <= k.value && IsCrlf(t, k.value)
    decreases |t| - p
  {
    if IsCrlf(t, p) then Some(p) else if p < |t| then FindCrlf(t, p + 1) else None
  }

  lemma {:induction false} FindCrlfIsFirst(t: seq<char>, p: nat, j: nat)
    requires p <= j && IsCrlf(t, j)
    ensures FindCrlf(t, p).Some? && FindCrlf(t, p).value <= j
    decreases j - p
  {
    if !IsCrlf(t, p) { FindCrlfIsFirst(t, p + 1, j); }
  }

  function Lower(c: char): char { if 'A' <= c <= 'Z' then c + 32 as char else c }

  /** The text at `p` is the name in any case, followed by ':'. */
  predicate Named(t: seq<char>, p: nat, name: seq<char>) {
    p + |name| < |t| && t[p + |name|] == ':' && forall i :: 0 <= i < |name| ==> Lower(t[p + i]) == name[i]
  }

  /** The first table entry from the i-th on that names the line. */
  function Lookup(table: seq<seq<char>>, t: seq<char>, p: nat, i: nat): (r: nat)
    requires i <= |table|
    ensures i <= r <= |table| && (r < |table| ==> Named(t, p, table[r]))
    decreases |table| - i
  {
    if i == |table| || Named(t, p, table[i]) then i else Lookup(table, t, p, i + 1)
  }

  datatype Found = Found(slot: nat, colon: nat)

  /** The known header of a line: general, request and entity headers in turn. */
  function KnownHeader(t: seq<char>, p: nat): (r: Option<Found>)
    ensures r.Some? ==> p <= r.value.colon < |t| && r.value.slot < SLOTS
  {
    var g := Lookup(GENERAL_HEADERS, t, p, 0);
    var r := Lookup(REQUEST_HEADERS, t, p, 0);
    var e := Lookup(ENTITY_HEADERS, t, p, 0);
    if g < |GENERAL_HEADERS| then Some(Found(GENERAL_START + g, p + |GENERAL_HEADERS[g]|))
    else if r < |REQUEST_HEADERS| then Some(Found(REQUEST_START + r, p + |REQUEST_HEADERS[r]|))
    else if e < |ENTITY_HEADERS| then Some(Found(ENTITY_START + e, p + |ENTITY_HEADERS[e]|))
    else None
  }

  /** What the header loop ends with; `header` holds the slots that are set. */
  datatype Block = Block(ok: bool, pos: nat, header: map<nat, Slice>)

  /** The header loop: known lines fill their slot, other lines are skipped, an
      empty line ends it, and a line without a CRLF fails it. */
  function Lines(t: seq<char>, p: nat, header: map<nat, Slice>): Block
    decreases |t| - p
  {
    match KnownHeader(t, p)
    case Some(f) =>
      (match FindCrlf(t, f.colon)
       case Some(k) => Lines(t, k + 2, header[f.slot := Slice(f.colon, k)])
       case None => Block(false, f.colon, header[f.slot := Slice(f.colon, |t|)]))
    case None =>
      if IsCrlf(t, p) then Block(true, p + 2, header)
      else
        match FindCrlf(t, p)
        case Some(k) => Lines(t, k + 2, header)
        case None => Block(false, p, header)
  }

  // --------------------------------------------------- line-based reading

  lemma NoColonInside(t: seq<char>, p: nat, a: seq<char>, i: nat)
    requires Named(t, p, a) && IsWord(a) && i < |a|
    ensures t[p + i] != ':'
  {
    assert a[i] in a && Lower(t[p + i]) == a[i];
  }

  lemma NotLonger(t: seq<char>, p: nat, a: seq<char>, b: seq<char>)
    requires Named(t, p, a) && Named(t, p, b) && IsWord(a)
    ensures |a| <= |b|
  {
    if |b| < |a| { NoColonInside(t, p, a, |b|); }
  }

  lemma NamedOnce(t: seq<char>, p: nat, a: seq<char>, b: seq<char>)
    requires Named(t, p, a) && Named(t, p, b) && IsWord(a) && IsWord(b)
    ensures a == b
  {
    NotLonger(t, p, a, b);
    NotLonger(t, p, b, a);
    forall i | 0 <= i < |a| ensures a[i] == b[i] { assert Lower(t[p + i]) == a[i]; }
  }

  lemma {:induction false} LookupFinds(table: seq<seq<char>>, t: seq<char>, p: nat, i: nat, j: nat)
    requires i <= j < |table| && Named(t, p, table[j])
    ensures Lookup(table, t, p, i) <= j
    decreases j - i
  {
    if !Named(t, p, table[i]) { LookupFinds(table, t, p, i + 1, j); }
  }

  lemma KnownIsNamed(t: seq<char>, p: nat)
    requires KnownHeader(t, p).Some?
    ensures var f := KnownHeader(t, p).value;
      Named(t, p, HeaderName(f.slot)) && f.colon == p + |HeaderName(f.slot)|
  {
    hide Named;
  }

  lemma NamedIsKnown(t: seq<char>, p: nat, slot: nat)
    requires slot < SLOTS && Named(t, p, HeaderName(slot))
    ensures KnownHeader(t, p).Some?
  {
    hide Named;
    if slot < ENTITY_START {
      LookupFinds(GENERAL_HEADERS, t, p, 0, slot);
    } else if slot < REQUEST_START {
      LookupFinds(ENTITY_HEADERS, t, p, 0, slot - ENTITY_START);
    } else {
      LookupFinds(REQUEST_HEADERS, t, p, 0, slot - REQUEST_START);
    }
  }

  /** A line fills a slot exactly when its lower-cased name is the slot's. */
  lemma KnownIff(t: seq<char>, p: nat, slot: nat)
    requires slot < SLOTS
    ensures KnownHeader(t, p) == Some(Found(slot, p + |HeaderName(slot)|)) <==> Named(t, p, HeaderName(slot))
  {
    hide Named, HeaderName, KnownHeader, IsWord;
    if KnownHeader(t, p).Some? {
      KnownIsNamed(t, p);
      var other := KnownHeader(t, p).value.slot;
      if Named(t, p, HeaderName(slot)) {
        NamesAreWords(slot);
        NamesAreWords(other);
        NamedOnce(t, p, HeaderName(slot), HeaderName(other));
        if slot < other { NamesDiffer(slot, other); }
        if other < slot { NamesDiffer(other, slot); }
      }
    } else if Named(t, p, HeaderName(slot)) {
      NamedIsKnown(t, p, slot);
    }
  }

  /** No header name runs over a line break. */
  lemma KnownEndsInLine(t: seq<char>, p: nat)
    requires KnownHeader(t, p).Some?
    ensures !IsCrlf(t, p) && FindCrlf(t, p) == FindCrlf(t, KnownHeader(t, p).value.colon)
  {
    KnownIsNamed(t, p);
    var f := KnownHeader(t, p).value;
    NamesAreWords(f.slot);
    hide HeaderName, KnownHeader;
    NoCrlfBefore(t, p, f.colon, HeaderName(f.slot));
  }

  lemma {:induction false} NoCrlfBefore(t: seq<char>, p: nat, c: nat, name: seq<char>)
    requires p <= c < |t| && c <= p + |name| && t[c] == ':' && '\r' !in name
    requires forall i :: 0 <= i < c - p ==> Lower(t[p + i]) == name[i]
    ensures FindCrlf(t, p) == FindCrlf(t, c) && !IsCrlf(t, p)
    decreases c - p
  {
    if p < c {
      assert Lower(t[p]) == name[0];
      assert forall i :: 0 <= i < c - (p + 1) ==> Lower(t[p + 1 + i]) == name[1..][i] by {
        forall i | 0 <= i < c - (p + 1) ensures Lower(t[p + 1 + i]) == name[1..][i] {
          assert Lower(t[p + (i + 1)]) == name[i + 1];
        }
      }
      NoCrlfBefore(t, p + 1, c, name[1..]);
    }
  }

  /** Where a line of the block at `p` begins: at `p` or right behind a CRLF. */
  predicate LineStart(t: seq<char>, p: nat, q: nat) { q == p || (p + 2 <= q && IsCrlf(t, q - 2)) }

  /** The lines behind the first one are the lines behind its CRLF. */
  lemma NextLine(t: seq<char>, p: nat, q: nat)
    requires LineStart(t, p, q)
    ensures p <= q && LineStart(t, p, p)
    ensures FindCrlf(t, p).None? ==> q == p
    ensures FindCrlf(t, p).Some? ==> q == p || LineStart(t, FindCrlf(t, p).value + 2, q)
    ensures IsCrlf(t, q) ==> FindCrlf(t, p).Some?
  {
    if q != p { FindCrlfIsFirst(t, p, q - 2); }
  }

  lemma LaterLine(t: seq<char>, p: nat, q: nat)
    requires FindCrlf(t, p).Some? && LineStart(t, FindCrlf(t, p).value + 2, q)
    ensures LineStart(t, p, q) && p + 2 <= FindCrlf(t, p).value + 2 <= q
  {
  }

  /** One turn of the loop, over lines: whichever line it is, the next one
      starts behind its CRLF. */
  function Filled(t: seq<char>, p: nat, header: map<nat, Slice>): map<nat, Slice>
    requires FindCrlf(t, p).Some?
  {
    var f := KnownHeader(t, p);
    if f.Some? then header[f.value.slot := Slice(f.value.colon, FindCrlf(t, p).value)] else header
  }

  lemma OneLine(t: seq<char>, p: nat, header: map<nat, Slice>)
    ensures IsCrlf(t, p) ==> Lines(t, p, header) == Block(true, p + 2, header)
    ensures !IsCrlf(t, p) && FindCrlf(t, p).Some? ==>
      Lines(t, p, header) == Lines(t, FindCrlf(t, p).value + 2, Filled(t, p, header))
    ensures FindCrlf(t, p).None? ==> !Lines(t, p, header).ok
  {
    hide KnownHeader, FindCrlf, IsCrlf;
    if KnownHeader(t, p).Some? { KnownEndsInLine(t, p); }
    if IsCrlf(t, p) { FindCrlfIsFirst(t, p, p); }
  }

  /** The loop succeeds exactly when an empty line follows, and stops right
      behind the first one. */
  lemma {:induction false} EndsAtFirstEmptyLine(t: seq<char>, p: nat, header: map<nat, Slice>, j: nat)
    requires LineStart(t, p, j) && IsCrlf(t, j)
    ensures var b := Lines(t, p, header);
      b.ok && p + 2 <= b.pos <= j + 2 && LineStart(t, p, b.pos - 2) && IsCrlf(t, b.pos - 2)
    decreases j - p
  {
    hide *;
    OneLine(t, p, header);
    NextLine(t, p, j);
    if !IsCrlf(t, p) {
      var k := FindCrlf(t, p).value;
      EndsAtFirstEmptyLine(t, k + 2, Filled(t, p, header), j);
      LaterLine(t, p, Lines(t, k + 2, Filled(t, p, header)).pos - 2);
    }
  }

  lemma {:induction false} EndIsEmptyLine(t: seq<char>, p: nat, header: map<nat, Slice>)
    requires Lines(t, p, header).ok
    ensures var e := Lines(t, p, header).pos; p + 2 <= e <= |t| && LineStart(t, p, e - 2) && IsCrlf(t, e - 2)
    decreases |t| - p
  {
    OneLine(t, p, header);
    hide Lines, KnownHeader;
    if !IsCrlf(t, p) && FindCrlf(t, p).Some? {
      var k := FindCrlf(t, p).value;
      EndIsEmptyLine(t, k + 2, Filled(t, p, header));
      LaterLine(t, p, Lines(t, k + 2, Filled(t, p, header)).pos - 2);
    }
  }

  lemma SucceedsIff(t: seq<char>, p: nat, header: map<nat, Slice>)
    ensures Lines(t, p, header).ok <==> exists j: nat :: LineStart(t, p, j) && IsCrlf(t, j)
  {
    if Lines(t, p, header).ok { EndIsEmptyLine(t, p, header); }
    if exists j: nat :: LineStart(t, p, j) && IsCrlf(t, j) {
      var j: nat :| LineStart(t, p, j) && IsCrlf(t, j);
      EndsAtFirstEmptyLine(t, p, header, j);
    }
  }

  /** A line in front of the empty line names the slot. */
  predicate HeaderLine(t: seq<char>, p: nat, e: nat, slot: nat, q: nat)
    requires slot < SLOTS
  {
    LineStart(t, p, q) && q + 2 < e && Named(t, q, HeaderName(slot))
  }

  /** The header lines behind the first line are header lines of the block. */
  lemma LaterHeaderLines(t: seq<char>, p: nat, next: nat, e: nat, slot: nat)
    requires slot < SLOTS && FindCrlf(t, p).Some? && next == FindCrlf(t, p).value + 2
    ensures forall q: nat :: HeaderLine(t, next, e, slot, q) ==> HeaderLine(t, p, e, slot, q) && p < q
  {
    hide Named, HeaderName;
    forall q: nat | HeaderLine(t, next, e, slot, q) ensures HeaderLine(t, p, e, slot, q) && p < q {
      LaterLine(t, p, q);
    }
  }

  lemma FirstHeaderLine(t: seq<char>, p: nat, e: nat, slot: nat, q: nat)
    requires slot < SLOTS && HeaderLine(t, p, e, slot, q)
    ensures q + 2 < e && p <= q
    ensures FindCrlf(t, p).Some? ==> q == p || HeaderLine(t, FindCrlf(t, p).value + 2, e, slot, q)
  {
    hide Named, HeaderName;
    NextLine(t, p, q);
  }

  lemma FilledSlot(t: seq<char>, p: nat, e: nat, header: map<nat, Slice>, slot: nat)
    requires slot < SLOTS && FindCrlf(t, p).Some? && p + 2 < e
    ensures var h := Filled(t, p, header); var k := FindCrlf(t, p).value;
      if HeaderLine(t, p, e, slot, p) then slot in h && h[slot] == Slice(p + |HeaderName(slot)|, k)
      else (slot in h <==> slot in header) && (slot in h ==> h[slot] == header[slot])
  {
    KnownIff(t, p, slot);
    hide Named, HeaderName, KnownHeader;
    if KnownHeader(t, p).Some? { KnownIsNamed(t, p); }
  }

  /** A slot no line names is left alone. */
  lemma {:induction false} UnnamedSlotKept(t: seq<char>, p: nat, header: map<nat, Slice>, slot: nat)
    requires slot < SLOTS && Lines(t, p, header).ok
    requires forall q: nat :: !HeaderLine(t, p, Lines(t, p, header).pos, slot, q)
    ensures var h := Lines(t, p, header).header;
      (slot in h <==> slot in header) && (slot in h ==> h[slot] == header[slot])
    decreases |t| - p
  {
    hide *;
    OneLine(t, p, header);
    EndIsEmptyLine(t, p, header);
    if !IsCrlf(t, p) {
      var k, h := FindCrlf(t, p).value, Filled(t, p, header);
      var e := Lines(t, k + 2, h).pos;
      EndIsEmptyLine(t, k + 2, h);
      FilledSlot(t, p, e, header, slot);
      LaterHeaderLines(t, p, k + 2, e, slot);
      UnnamedSlotKept(t, k + 2, h, slot);
    }
  }

  /** A slot holds the text from ':' to the CRLF of the last line that names it. */
  lemma {:induction false} LastLineWins(t: seq<char>, p: nat, header: map<nat, Slice>, slot: nat, q: nat)
    requires slot < SLOTS && Lines(t, p, header).ok && HeaderLine(t, p, Lines(t, p, header).pos, slot, q)
    requires forall r: nat :: q < r ==> !HeaderLine(t, p, Lines(t, p, header).pos, slot, r)
    ensures var h := Lines(t, p, header).header; var k := FindCrlf(t, q);
      k.Some? && slot in h && h[slot] == Slice(q + |HeaderName(slot)|, k.value)
    decreases |t| - p
  {
    hide *;
    OneLine(t, p, header);
    FirstHeaderLine(t, p, Lines(t, p, header).pos, slot, q);
    var k, h := FindCrlf(t, p).value, Filled(t, p, header);
    var e := Lines(t, k + 2, h).pos;
    EndIsEmptyLine(t, k + 2, h);
    FilledSlot(t, p, e, header, slot);
    LaterHeaderLines(t, p, k + 2, e, slot);
    if q == p {
      UnnamedSlotKept(t, k + 2, h, slot);
    } else {
      LastLineWins(t, k + 2, h, slot, q);
    }
  }

  // ------------------------------------------------------- growing buffers

  lemma {:induction false} FindCrlfGrows(t: seq<char>, u: seq<char>, p: nat)
    requires t <= u && FindCrlf(t, p).Some?
    ensures FindCrlf(u, p) == FindCrlf(t, p)
    decreases |t| - p
  {
    assert IsCrlf(t, p) ==> IsCrlf(u, p);
    assert p + 1 < |t| ==> IsCrlf(u, p) == IsCrlf(t, p);
    if !IsCrlf(t, p) { FindCrlfGrows(t, u, p + 1); }
  }

  lemma NamedGrows(t: seq<char>, u: seq<char>, p: nat, name: seq<char>)
    requires t <= u && Named(t, p, name)
    ensures Named(u, p, name)
  {
    assert u[p + |name|] == t[p + |name|];
    forall i | 0 <= i < |name| ensures Lower(u[p + i]) == name[i] { assert u[p + i] == t[p + i]; }
  }

  /** A known header stays the same header when the buffer grows. */
  lemma KnownGrows(t: seq<char>, u: seq<char>, p: nat)
    requires t <= u && KnownHeader(t, p).Some?
    ensures KnownHeader(u, p) == KnownHeader(t, p)
  {
    KnownIsNamed(t, p);
    var s := KnownHeader(t, p).value.slot;
    NamedGrows(t, u, p, HeaderName(s));
    KnownIff(t, p, s);
    KnownIff(u, p, s);
    hide KnownHeader, Named, HeaderName;
  }

  lemma NamedShrinks(t: seq<char>, u: seq<char>, p: nat, k: nat, name: seq<char>)
    requires t <= u && IsCrlf(t, k) && p <= k && Named(u, p, name) && IsWord(name)
    ensures Named(t, p, name)
  {
    if k < p + |name| { CrInName(u, p, k, name); }
    assert p + |name| != k;
    assert t[p + |name|] == u[p + |name|];
    forall i | 0 <= i < |name| ensures Lower(t[p + i]) == name[i] { assert u[p + i] == t[p + i]; }
  }

  lemma CrInName(u: seq<char>, p: nat, k: nat, name: seq<char>)
    requires Named(u, p, name) && IsWord(name) && p <= k < p + |name|
    ensures u[k] != '\r'
  {
    assert name[k - p] in name && Lower(u[p + (k - p)]) == name[k - p];
  }

  /** A complete line reads the same when the buffer grows. */
  lemma LineGrows(t: seq<char>, u: seq<char>, p: nat)
    requires t <= u && FindCrlf(t, p).Some?
    ensures KnownHeader(u, p) == KnownHeader(t, p) && FindCrlf(u, p) == FindCrlf(t, p)
  {
    FindCrlfGrows(t, u, p);
    if KnownHeader(t, p).Some? {
      KnownGrows(t, u, p);
    } else if KnownHeader(u, p).Some? {
      KnownIsNamed(u, p);
      var s := KnownHeader(u, p).value.slot;
      NamesAreWords(s);
      hide KnownHeader, Named, HeaderName, IsWord;
      NamedShrinks(t, u, p, FindCrlf(t, p).value, HeaderName(s));
      KnownIff(t, p, s);
    }
  }

  /** The loop starts from the slots it is given and only overwrites. */
  lemma {:induction false} LinesOverwrite(t: seq<char>, p: nat, header: map<nat, Slice>)
    ensures var b, w := Lines(t, p, header), Lines(t, p, map[]);
      b.ok == w.ok && b.pos == w.pos && b.header == header + w.header
    decreases |t| - p
  {
    hide KnownHeader;
    match KnownHeader(t, p)
    case Some(f) => {
      var k := FindCrlf(t, f.colon);
      var one: map<nat, Slice> := map[][f.slot := Slice(f.colon, if k.Some? then k.value else |t|)];
      assert header + one == header[f.slot := one[f.slot]];
      if k.Some? {
        LinesOverwrite(t, k.value + 2, header[f.slot := one[f.slot]]);
        LinesOverwrite(t, k.value + 2, one);
      }
    }
    case None => {
      var k := FindCrlf(t, p);
      if !IsCrlf(t, p) && k.Some? { LinesOverwrite(t, k.value + 2, header); }
    }
  }

  /** A loop that succeeds does the same on every extension of the buffer. */
  lemma {:induction false} LinesExtend(t: seq<char>, u: seq<char>, p: nat, header: map<nat, Slice>)
    requires t <= u && Lines(t, p, header).ok
    ensures Lines(u, p, header) == Lines(t, p, header)
    decreases |t| - p
  {
    hide *;
    OneLine(t, p, header);
    OneLine(u, p, header);
    if IsCrlf(t, p) {
      CrlfGrows(t, u, p);
    } else {
      LineGrows(t, u, p);
      SameFill(t, u, p, header);
      var k := FindCrlf(t, p).value;
      EndIsEmptyLine(t, k + 2, Filled(t, p, header));
      LinesExtend(t, u, k + 2, Filled(t, p, header));
    }
  }

  lemma CrlfGrows(t: seq<char>, u: seq<char>, p: nat)
    requires t <= u
    ensures IsCrlf(t, p) ==> IsCrlf(u, p)
    ensures FindCrlf(t, p).Some? && IsCrlf(u, p) ==> IsCrlf(t, p)
  {
  }

  lemma SameFill(t: seq<char>, u: seq<char>, p: nat, header: map<nat, Slice>)
    requires t <= u && FindCrlf(t, p).Some?
    ensures FindCrlf(u, p) == FindCrlf(t, p) && Filled(u, p, header) == Filled(t, p, header)
    ensures !IsCrlf(t, p) ==> !IsCrlf(u, p)
  {
    LineGrows(t, u, p);
    CrlfGrows(t, u, p);
  }

  lemma SlotOfLine(t: seq<char>, p: nat)
    requires KnownHeader(t, p).Some? && Lines(t, p, map[]).ok
    ensures KnownHeader(t, p).value.slot in Lines(t, p, map[]).header
  {
    hide KnownHeader, FindCrlf, IsCrlf, Lines;
    KnownEndsInLine(t, p);
    OneLine(t, p, map[]);
    LinesOverwrite(t, FindCrlf(t, p).value + 2, Filled(t, p, map[]));
  }

  /** Every slot written from the shorter buffer is written from the longer one. */
  lemma {:induction false} SlotsWrittenAgain(t: seq<char>, u: seq<char>, p: nat)
    requires t <= u && Lines(u, p, map[]).ok
    ensures Lines(t, p, map[]).header.Keys <= Lines(u, p, map[]).header.Keys
    decreases |t| - p
  {
    hide *;
    OneLine(t, p, map[]);
    OneLine(u, p, map[]);
    if IsCrlf(t, p) {
    } else if FindCrlf(t, p).Some? {
      SameFill(t, u, p, map[]);
      var k, w := FindCrlf(t, p).value, Filled(t, p, map[]);
      LinesOverwrite(t, k + 2, w);
      LinesOverwrite(u, k + 2, w);
      InText(t, k);
      SlotsWrittenAgain(t, u, k + 2);
    } else {
      OpenLine(t, p);
      if KnownHeader(t, p).Some? {
        KnownGrows(t, u, p);
        SlotOfLine(u, p);
      }
    }
  }

  lemma InText(t: seq<char>, k: nat)
    requires IsCrlf(t, k)
    ensures k + 2 <= |t|
  {
  }

  lemma OpenLine(t: seq<char>, p: nat)
    requires FindCrlf(t, p).None?
    ensures var f := KnownHeader(t, p);
      Lines(t, p, map[]).header.Keys == if f.Some? then {f.value.slot} else {}
  {
    hide KnownHeader;
    if KnownHeader(t, p).Some? { KnownEndsInLine(t, p); }
    if IsCrlf(t, p) { FindCrlfIsFirst(t, p, p); }
  }

  /** What a run on a shorter buffer left behind makes no difference. */
  lemma LinesRetry(t: seq<char>, u: seq<char>, p: nat, header: map<nat, Slice>)
    requires t <= u && Lines(u, p, header).ok
    ensures Lines(u, p, Lines(t, p, header).header) == Lines(u, p, header)
  {
    hide *;
    var h := Lines(t, p, header).header;
    LinesOverwrite(t, p, header);
    LinesOverwrite(u, p, header);
    LinesOverwrite(u, p, h);
    SlotsWrittenAgain(t, u, p);
    var v, w := Lines(t, p, map[]).header, Lines(u, p, map[]).header;
    Absorb(header, v, w);
  }

  lemma Absorb(h: map<nat, Slice>, v: map<nat, Slice>, w: map<nat, Slice>)
    requires v.Keys <= w.Keys
    ensures h + v + w == h + w
  {
    assert forall s :: s in v ==> s in w;
  }
}
