/** Paths as text and as lists of segments. */
module Segments {
  type Segment = seq<char>

  predicate NoSlash(s: seq<char>) { forall k :: 0 <= k < |s| ==> s[k] != '/' }

  predicate Plain(segs: seq<Segment>) { forall k :: 0 <= k < |segs| ==> NoSlash(segs[k]) }

  /** The position of the first '/', or the length when there is none. */
  function Slash(s: seq<char>): (i: nat)
    ensures i <= |s|
  {
    if s == [] || s[0] == '/' then 0 else 1 + Slash(s[1..])
  }

  lemma {:induction false} SlashAt(s: seq<char>, i: nat)
    requires i <= |s| && NoSlash(s[..i]) && (i < |s| ==> s[i] == '/')
    ensures Slash(s) == i
  {
    if i > 0 {
      assert s[0] == s[..i][0];
      assert s[1..][..i - 1] == s[..i][1..];
      SlashAt(s[1..], i - 1);
    }
  }

  lemma {:induction false} SlashIsFirst(s: seq<char>)
    ensures NoSlash(s[..Slash(s)]) && (Slash(s) < |s| ==> s[Slash(s)] == '/')
  {
    if s != [] && s[0] != '/' {
      SlashIsFirst(s[1..]);
      var i := Slash(s);
      forall k | 0 <= k < i ensures s[..i][k] != '/' {
        if k > 0 { assert s[1..][..i - 1][k - 1] == s[k]; }
      }
    }
  }

  function Split(s: seq<char>): (segs: seq<Segment>)
    ensures |segs| > 0
    decreases |s|
  {
    var i := Slash(s);
    if i == |s| then [s] else [s[..i]] + Split(s[i + 1..])
  }

  lemma {:induction false} SplitPlain(s: seq<char>)
    ensures Plain(Split(s))
    decreases |s|
  {
    var i := Slash(s);
    SlashIsFirst(s);
    if i < |s| { SplitPlain(s[i + 1..]); } else { assert s[..i] == s; }
  }

  /** Every segment followed by a '/'. */
  function Lead(segs: seq<Segment>): seq<char> {
    if segs == [] then [] else Lead(segs[..|segs| - 1]) + segs[|segs| - 1] + ['/']
  }

  function Join(segs: seq<Segment>): seq<char>
    requires |segs| > 0
  {
    Lead(segs[..|segs| - 1]) + segs[|segs| - 1]
  }

  lemma LeadOne(p: Segment)
    ensures Lead([p]) == p + ['/']
  {
    assert [p][..0] == [];
  }

  lemma {:induction false} LeadAppend(a: seq<Segment>, b: seq<Segment>)
    ensures Lead(a + b) == Lead(a) + Lead(b)
  {
    if b == [] {
      assert a + b == a;
    } else {
      var n := |b| - 1;
      assert (a + b)[..|a + b| - 1] == a + b[..n];
      LeadAppend(a, b[..n]);
    }
  }

  lemma JoinAppend(a: seq<Segment>, b: seq<Segment>)
    requires |b| > 0
    ensures Join(a + b) == Lead(a) + Join(b)
  {
    assert (a + b)[..|a + b| - 1] == a + b[..|b| - 1];
    LeadAppend(a, b[..|b| - 1]);
  }

  lemma JoinCons(p: Segment, b: seq<Segment>)
    requires |b| > 0
    ensures Join([p] + b) == p + ['/'] + Join(b)
  {
    JoinAppend([p], b);
    LeadOne(p);
  }

  lemma CutAtSlash(s: seq<char>)
    requires Slash(s) < |s|
    ensures s == s[..Slash(s)] + ['/'] + s[Slash(s) + 1..]
  {
    SlashIsFirst(s);
  }

  lemma JoinOne(p: Segment)
    ensures Join([p]) == p
  {
    assert [p][..0] == [];
  }

  lemma {:induction false} JoinSplit(s: seq<char>)
    ensures Join(Split(s)) == s
    decreases |s|
  {
    hide Join, Slash;
    var i := Slash(s);
    if i < |s| {
      JoinSplit(s[i + 1..]);
      JoinCons(s[..i], Split(s[i + 1..]));
      CutAtSlash(s);
    } else {
      JoinOne(s);
    }
  }

  lemma {:induction false} SplitJoin(segs: seq<Segment>)
    requires |segs| > 0 && Plain(segs)
    ensures Split(Join(segs)) == segs
  {
    var p := segs[0];
    if |segs| == 1 {
      assert Join(segs) == p;
      assert p[..|p|] == p && segs == [p];
      SlashAt(p, |p|);
    } else {
      var rest := segs[1..];
      assert segs == [p] + rest;
      JoinCons(p, rest);
      var s := Join(segs);
      assert NoSlash(p) && s[..|p|] == p && s[|p| + 1..] == Join(rest);
      SlashAt(s, |p|);
      SplitJoin(rest);
    }
  }

  /** Different segment lists are different texts. */
  lemma JoinInjective(a: seq<Segment>, b: seq<Segment>)
    requires |a| > 0 && |b| > 0 && Plain(a) && Plain(b)
    ensures Join(a) == Join(b) <==> a == b
  {
    if Join(a) == Join(b) {
      SplitJoin(a);
      SplitJoin(b);
    }
  }
}
