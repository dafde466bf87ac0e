/** Which hosts the URI parser accepts (section 3.2.2 of RFC 2396): the converse
    of finding every legal host. */
module UriHosts {
  import opened Options
  import opened Cursor
  import opened UriGrammar
  import opened UriScan
  import opened UriRoundTrip

  /** A label as the parser takes it: one that ends the text may end in '-'. */
  predicate FoundLabel(w: seq<char>, isEnd: bool) {
    w != [] && Alphanum(w[0]) && (w[|w| - 1] != '-' || isEnd) && forall k :: 0 <= k < |w| ==> In(Label, w[k])
  }

  /** Legal labels, then one the parser takes. */
  predicate FoundLabels(labels: seq<seq<char>>, isEnd: bool) {
    labels != [] && (if |labels| == 1 then FoundLabel(labels[0], isEnd)
                     else LegalLabel(labels[0]) && FoundLabels(labels[1..], isEnd))
  }

  /** A host that is legal but perhaps for a '-' that ends the text. */
  predicate FoundHost(h: Server, isEnd: bool) {
    match h
    case Name(labels, finalDot) =>
      FoundLabels(labels, isEnd && !finalDot) && Last(labels) != [] && Alpha(Last(labels)[0])
    case Address(_) => LegalHost(h)
  }

  predicate EndsInHyphen(h: Server) {
    h.Name? && !h.finalDot && h.labels != [] && Last(h.labels) != [] && Last(h.labels)[|Last(h.labels)| - 1] == '-'
  }

  lemma {:induction false} FoundIsLegalIff(labels: seq<seq<char>>, isEnd: bool)
    requires FoundLabels(labels, isEnd)
    ensures labels != [] && Last(labels) != []
    ensures LegalLabels(labels) <==> Last(labels)[|Last(labels)| - 1] != '-'
    ensures !isEnd ==> LegalLabels(labels)
  {
    LastOfMore(labels);
    hide In, Last;
    if |labels| > 1 { FoundIsLegalIff(labels[1..], isEnd); }
  }

  /** The only illegal hosts the parser takes are names whose last label ends in
      '-', at the end of the text. */
  lemma FoundHostIff(h: Server, isEnd: bool)
    requires FoundHost(h, isEnd)
    ensures h.labels != []
    ensures LegalHost(h) <==> !EndsInHyphen(h)
    ensures EndsInHyphen(h) ==> isEnd
  {
    hide FoundLabels, LegalLabels, Last, Alpha, AllNumbers;
    if h.Name? { FoundIsLegalIff(h.labels, isEnd && !h.finalDot); }
  }

  // ------------------------------------------------------------- what is scanned

  lemma {:induction false} ScannedIn(cls: Class, t: seq<char>, p: nat)
    requires p <= |t| && !Escapes(cls)
    ensures forall k :: p <= k < Scan(cls, t, p) ==> In(cls, t[k])
    ensures p < |t| && In(cls, t[p]) ==> p < Scan(cls, t, p)
    decreases |t| - p
  {
    hide In;
    if Starts(cls, t, p) { ScannedIn(cls, t, p + 1); }
  }

  lemma AlphanumIsLabel(c: char)
    ensures Alphanum(c) ==> In(Label, c)
    ensures !Alphanum('\0')
  {
  }

  lemma LabelFound(t: seq<char>, p: nat)
    requires p <= |t| && LabelOk(t, p, false)
    ensures var e := Scan(Label, t, p); p < e && FoundLabel(t[p..e], e == |t|)
    ensures var e := Scan(Label, t, p); Is(t, e, '.') ==> e < |t| && LegalLabel(t[p..e])
  {
    AlphanumIsLabel(CharAt(t, p));
    ScannedIn(Label, t, p);
    hide In, Scan, Alphanum;
    var e := Scan(Label, t, p);
    assert forall k :: 0 <= k < e - p ==> t[p..e][k] == t[p + k];
  }

  lemma DottedMore(w: seq<char>, rest: seq<seq<char>>)
    requires rest != []
    ensures Dotted([w] + rest) == w + "." + Dotted(rest) && Last([w] + rest) == Last(rest)
  {
    assert ([w] + rest)[1..] == rest;
  }

  lemma FoundMore(w: seq<char>, rest: seq<seq<char>>, isEnd: bool)
    requires rest != [] && LegalLabel(w) && FoundLabels(rest, isEnd)
    ensures FoundLabels([w] + rest, isEnd)
  {
    assert ([w] + rest)[1..] == rest;
  }

  lemma TextMore(t: seq<char>, p: nat, e: nat, f: nat)
    requires p <= e < f <= |t| && t[e] == '.'
    ensures t[p..f] == t[p..e] + "." + t[e + 1..f]
  {
  }

  /** The labels the loop walks over, up to the end of the last one it accepts. */
  lemma {:induction false} LabelsFound(t: seq<char>, p: nat, last: nat) returns (labels: seq<seq<char>>)
    requires p <= |t| && LabelOk(t, p, false)
    ensures var l := LastLabel(t, p, last); var e := Scan(Label, t, l);
      && p <= l < e <= |t| && labels != [] && t[p..e] == Dotted(labels) && Last(labels) == t[l..e]
      && FoundLabels(labels, e == |t|)
    decreases |t| - p
  {
    hide *;
    LastLabelStep(t, p, last);
    LabelFound(t, p);
    var e := Scan(Label, t, p);
    if Is(t, e, '.') && LabelOk(t, e + 1, false) {
      DotInside(t, e);
      var rest := LabelsFound(t, e + 1, p);
      labels := [t[p..e]] + rest;
      DottedMore(t[p..e], rest);
      var f := Scan(Label, t, LastLabel(t, e + 1, p));
      FoundMore(t[p..e], rest, f == |t|);
      TextMore(t, p, e, f);
    } else {
      labels := [t[p..e]];
      LastLabelStep(t, e + 1, p);
      OneLabel(t[p..e], e == |t|);
      ScanInText(t, p);
    }
  }

  lemma ScanInText(t: seq<char>, p: nat)
    requires p <= |t|
    ensures p <= Scan(Label, t, p) <= |t|
  {
  }

  lemma DotInside(t: seq<char>, e: nat)
    requires Is(t, e, '.')
    ensures e < |t| && t[e] == '.'
  {
  }

  lemma OneLabel(w: seq<char>, isEnd: bool)
    requires FoundLabel(w, isEnd)
    ensures FoundLabels([w], isEnd) && Dotted([w]) == w && Last([w]) == w
  {
  }

  lemma HostnameIs(t: seq<char>, p: nat)
    ensures var l := LastLabel(t, p, p); var e := Scan(Label, t, l);
      Hostname(t, p) == if LabelOk(t, l, true) then (true, if Is(t, e, '.') then e + 1 else e) else (false, p)
  {
    hide LabelOk, Scan, LastLabel;
  }

  lemma NamedHost(t: seq<char>, p: nat, l: nat, e: nat, labels: seq<seq<char>>) returns (h: Server)
    requires p <= l < e <= |t| && labels != [] && t[p..e] == Dotted(labels) && Last(labels) == t[l..e]
    requires FoundLabels(labels, e == |t|) && Alpha(t[l])
    ensures var f := if Is(t, e, '.') then e + 1 else e;
      f <= |t| && h.Name? && FoundHost(h, f == |t|) && HostText(h) == t[p..f]
  {
    hide Dotted, FoundLabels, Last, Alpha;
    assert Last(labels)[0] == t[l];
    h := Name(labels, Is(t, e, '.'));
    if Is(t, e, '.') {
      assert t[p..e + 1] == t[p..e] + ".";
    } else {
      assert t[p..e] + "" == t[p..e];
    }
    assert FoundLabels(labels, e == |t|);
  }

  /** What passes for a hostname is one. */
  lemma HostnameFound(t: seq<char>, p: nat) returns (h: Server)
    requires p <= |t| && Hostname(t, p).0
    ensures var e := Hostname(t, p).1; p <= e <= |t| && h.Name? && FoundHost(h, e == |t|) && HostText(h) == t[p..e]
  {
    hide *;
    HostnameIs(t, p);
    LastLabelStep(t, p, p);
    TopIsLabel(t, p);
    TopIsLabel(t, LastLabel(t, p, p));
    TopIsAlpha(t, LastLabel(t, p, p));
    var labels := LabelsFound(t, p, p);
    var l := LastLabel(t, p, p);
    h := NamedHost(t, p, l, Scan(Label, t, l), labels);
  }

  lemma TopIsAlpha(t: seq<char>, l: nat)
    ensures LabelOk(t, l, true) ==> l < |t| && Alpha(t[l])
  {
    hide Scan;
  }

  lemma TopIsLabel(t: seq<char>, p: nat)
    ensures LabelOk(t, p, true) ==> LabelOk(t, p, false)
  {
    hide Scan;
  }

  /** What passes for the last numbers of an address are numbers. */
  lemma {:induction false} NumbersFound(t: seq<char>, p: nat, i: nat) returns (numbers: seq<seq<char>>)
    requires p <= |t| && i < 4 && Numbers(t, p, i).0
    ensures |numbers| == 4 - i && AllNumbers(numbers)
    ensures var e := Numbers(t, p, i).1; p <= e <= |t| && t[p..e] == Dotted(numbers)
    decreases 4 - i
  {
    hide *;
    NumbersUnfold(t, p, i);
    NumberFound(t, p);
    var e := Scan(Number, t, p + 1);
    var w := t[p..e];
    if i == 3 {
      numbers := [w];
      OneNumberOnly(w);
    } else {
      DotInside(t, e);
      var rest := NumbersFound(t, e + 1, i + 1);
      numbers := [w] + rest;
      DottedMore(w, rest);
      AllNumbersMore(w, rest);
      TextMore(t, p, e, Numbers(t, e + 1, i + 1).1);
    }
  }

  lemma NumberFound(t: seq<char>, p: nat)
    requires p <= |t| && Digit(CharAt(t, p)) && HasNext(t, p)
    ensures var e := Scan(Number, t, p + 1); p < e <= |t| && Digits(t[p..e])
  {
    ScannedIn(Number, t, p + 1);
    hide Scan;
    var e := Scan(Number, t, p + 1);
    forall k | 0 <= k < e - p ensures Digit(t[p..e][k]) {
      if k > 0 { assert In(Number, t[p + k]); }
    }
  }

  lemma OneNumberOnly(w: seq<char>)
    requires w != [] && Digits(w)
    ensures AllNumbers([w]) && Dotted([w]) == w
  {
  }

  lemma AllNumbersMore(w: seq<char>, rest: seq<seq<char>>)
    requires w != [] && Digits(w) && AllNumbers(rest)
    ensures AllNumbers([w] + rest)
  {
    hide Digits;
  }

  // ------------------------------------------------------------------- theorem

  /** Every host the parser accepts is a hostname or an address of RFC 2396, but
      for a name whose last label ends in '-' at the end of the text. */
  lemma HostIsFound(t: seq<char>, p: nat, parts: Parts) returns (h: Server)
    requires p <= |t| && Host(t, p, parts).ok
    ensures var e := Host(t, p, parts).pos;
      && p <= e <= |t| && Host(t, p, parts).parts.host == Slice(p, e)
      && h.labels != [] && HostText(h) == t[p..e]
      && (LegalHost(h) <==> !EndsInHyphen(h)) && (EndsInHyphen(h) ==> e == |t|)
  {
    hide Hostname, Numbers, Digits, FoundLabels, LegalHost, EndsInHyphen, HostText;
    if Hostname(t, p).0 {
      h := HostnameFound(t, p);
    } else {
      var numbers := NumbersFound(t, p, 0);
      h := AddressOf(numbers);
    }
    FoundHostIff(h, Host(t, p, parts).pos == |t|);
  }

  lemma AddressOf(numbers: seq<seq<char>>) returns (h: Server)
    requires |numbers| == 4 && AllNumbers(numbers)
    ensures h.Address? && LegalHost(h) && h.labels == numbers && HostText(h) == Dotted(numbers)
  {
    h := Address(numbers);
    assert Dotted(numbers) + "" == Dotted(numbers);
  }

  /** "a-" is accepted as a host at the end of a text, though no label may end in '-'. */
  lemma HyphenAtTheEnd()
    ensures Host("a-", 0, NO_PARTS).ok && Host("a-", 0, NO_PARTS).pos == 2
    ensures !LegalLabel("a-")
  {
    var t := "a-";
    assert Scan(Label, t, 2) == 2;
    assert Scan(Label, t, 0) == 2;
    assert LastLabel(t, 0, 0) == 0;
  }

  /** Of the registry name "a_b" (section 3.2.1 of RFC 2396) only "a" is read. */
  lemma RegistryNameIsCut(rest: seq<char>)
    ensures Host("a_b" + rest, 0, NO_PARTS).ok && Host("a_b" + rest, 0, NO_PARTS).pos == 1
  {
    var t := "a_b" + rest;
    assert t[0] == 'a' && t[1] == '_';
    assert Scan(Label, t, 1) == 1;
    assert Scan(Label, t, 0) == 1;
    assert LastLabel(t, 0, 0) == 0;
  }
}
