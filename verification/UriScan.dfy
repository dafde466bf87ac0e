/** When the scan loops of the URI parser stop where a component ends. */
module UriScan {
  import opened Cursor
  import opened UriGrammar

  /** A sequence of characters of the class and `%` escapes, as the grammar of
      RFC 2396 allows it. */
  predicate Legal(cls: Class, w: seq<char>)
    decreases |w|
  {
    w == [] ||
    (if In(cls, w[0]) then Legal(cls, w[1..])
     else Escapes(cls) && IsEscape(w, 0) && Legal(cls, w[3..]))
  }

  /** The loop, which takes the byte behind an escape unseen, stays inside. */
  predicate Clean(cls: Class, w: seq<char>)
    decreases |w|
  {
    w == [] ||
    (if In(cls, w[0]) then Clean(cls, w[1..])
     else Escapes(cls) && IsEscape(w, 0) && |w| > 3 && Clean(cls, w[4..]))
  }

  /** No loop over the class can go on at `e`. */
  predicate Closed(cls: Class, t: seq<char>, e: nat) {
    e == |t| || (e < |t| && !In(cls, t[e]) && t[e] != '%')
  }

  lemma NoPercent(cls: Class)
    ensures !In(cls, '%')
  {
  }

  lemma HexInside(cls: Class, c: char)
    requires Escapes(cls) && Hex(c)
    ensures In(cls, c)
  {
  }

  lemma {:induction false} ScanStops(cls: Class, t: seq<char>, p: nat)
    requires Closed(cls, t, p)
    ensures Scan(cls, t, p) == p
  {
  }

  /** Dropping a character or an escape and the byte behind it keeps a
      component legal. */
  lemma {:induction false} LegalAfterStep(cls: Class, w: seq<char>)
    requires Legal(cls, w) && w != [] && !In(cls, w[0]) && |w| > 3
    ensures Legal(cls, w[4..])
  {
    hide In;
    var v := w[3..];
    assert v[1..] == w[4..];
    if !In(cls, v[0]) {
      HexInside(cls, v[1]);
      HexInside(cls, v[2]);
      assert v[1..][1..] == v[2..] && v[1..][0] == v[1] && v[2..][0] == v[2] && v[2..][1..] == v[3..];
    }
  }

  /** Where a loop stops that starts with a legal component: at its end when
      the component is clean or ends the text, and behind its end otherwise. */
  lemma {:induction false} ScanLegal(cls: Class, t: seq<char>, p: nat, e: nat)
    requires p <= e <= |t| && Legal(cls, t[p..e]) && Closed(cls, t, e)
    ensures Scan(cls, t, p) == e <==> Clean(cls, t[p..e]) || e == |t|
    decreases e - p
  {
    var w := t[p..e];
    NoPercent(cls);
    hide In;
    if p == e {
      ScanStops(cls, t, p);
    } else if In(cls, t[p]) {
      assert w[1..] == t[p + 1..e];
      ScanLegal(cls, t, p + 1, e);
    } else {
      assert t[p] == w[0] && t[p + 1] == w[1] && t[p + 2] == w[2];
      if e == p + 3 {
        assert Scan(cls, t, p) == Scan(cls, t, Next(t, e));
      } else {
        LegalAfterStep(cls, w);
        assert w[4..] == t[p + 4..e];
        ScanLegal(cls, t, p + 4, e);
      }
    }
  }

  lemma {:induction false} ScanClean(cls: Class, t: seq<char>, p: nat, e: nat)
    requires p <= e <= |t| && (forall k :: p <= k < e ==> In(cls, t[k])) && Closed(cls, t, e)
    ensures Scan(cls, t, p) == e
    decreases e - p
  {
    if p < e { ScanClean(cls, t, p + 1, e); } else { ScanStops(cls, t, p); }
  }

  lemma NumbersUnfold(t: seq<char>, p: nat, i: nat)
    requires i < 4
    ensures Numbers(t, p, i) ==
            if !Digit(CharAt(t, p)) || !HasNext(t, p) then (false, p)
            else
              var e := Scan(Number, t, p + 1);
              if i == 3 then (true, e)
              else if Is(t, e, '.') then Numbers(t, e + 1, i + 1)
              else (false, e)
  {
    hide Scan, Digit;
  }

  lemma PathCharIs(t: seq<char>, p: nat)
    requires p <= |t|
    ensures Starts(PathChar, t, p) <==> Starts(Pchar, t, p) || Is(t, p, ';') || Is(t, p, '/')
    ensures Is(t, p, ';') || Is(t, p, '/') ==> In(PathChar, t[p]) && !Starts(Pchar, t, p)
    ensures Starts(Pchar, t, p) ==> Step(PathChar, t, p) == Step(Pchar, t, p)
  {
    NoPercent(Pchar);
  }

  lemma SegmentUnfolds(t: seq<char>, p: nat)
    requires p <= |t|
    ensures SegmentEnd(t, p) ==
            if Starts(Pchar, t, p) then SegmentEnd(t, Step(Pchar, t, p))
            else if Is(t, p, ';') then SegmentEnd(t, p + 1)
            else Missed(Pchar, t, p)
  {
    PathCharIs(t, p);
    hide In, Starts, Step;
  }

  lemma PathEndIs(t: seq<char>, p: nat)
    ensures PathEnd(t, p) == if Is(t, SegmentEnd(t, p), '/') then PathEnd(t, SegmentEnd(t, p) + 1) else SegmentEnd(t, p)
  {
    hide SegmentEnd;
  }

  lemma MissesSlash(t: seq<char>, p: nat)
    requires p <= |t|
    ensures Is(t, Missed(Pchar, t, p), '/') <==> Is(t, p, '/')
    ensures Is(t, p, '/') ==> Missed(Pchar, t, p) == p
  {
  }

  /** One character of a path: of a segment, or the start of a parameter or
      of a segment. */
  lemma PathUnfolds(t: seq<char>, p: nat)
    requires p <= |t|
    ensures PathEnd(t, p) ==
            if Starts(Pchar, t, p) then PathEnd(t, Step(Pchar, t, p))
            else if Is(t, p, ';') || Is(t, p, '/') then PathEnd(t, p + 1)
            else Missed(Pchar, t, p)
  {
    hide In, Starts, Step, SegmentEnd, PathEnd, Missed;
    PathCharIs(t, p);
    MissesSlash(t, p);
    SegmentUnfolds(t, p);
    PathEndIs(t, p);
    PathEndIs(t, p + 1);
    if Starts(Pchar, t, p) { PathEndIs(t, Step(Pchar, t, p)); }
  }

  /** Segments and parameters together are one flat run of path characters. */
  lemma {:induction false} PathIsFlat(t: seq<char>, p: nat)
    requires p <= |t|
    ensures PathEnd(t, p) == Scan(PathChar, t, p)
    decreases |t| - p
  {
    PathCharIs(t, p);
    PathUnfolds(t, p);
    assert Is(t, p, ';') || Is(t, p, '/') ==> Step(PathChar, t, p) == p + 1;
    hide In, Starts, Step, PathEnd, SegmentEnd, ParamsEnd;
    if Starts(Pchar, t, p) {
      PathIsFlat(t, Step(Pchar, t, p));
    } else if Is(t, p, ';') || Is(t, p, '/') {
      PathIsFlat(t, p + 1);
    }
  }
}
