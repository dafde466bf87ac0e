/** What removing "." and ".." segments means, on lists of segments.

    A path is reduced from left to right with a stack: ".." pops the segment
    before it unless that is itself ".." or missing.  The C code scans bytes and
    does not move its segment start past a '/' that is followed by a segment
    such as "..g"; such a segment is glued to the one before it, and a later
    ".." takes both away.  `Fold(true, ..)` is that behaviour, `Fold(false, ..)`
    the one of section 5.2 of RFC 2396, step 6. */
module DotSegments {
  import opened Segments

  const DOT: Segment := "."
  const DOTDOT: Segment := ".."

  function Top(st: seq<Segment>): Segment
    requires st != []
  {
    st[|st| - 1]
  }

  function Butlast(st: seq<Segment>): seq<Segment>
    requires st != []
  {
    st[..|st| - 1]
  }

  // -------------------------------------------------------- "." segments

  function WithoutDots(segs: seq<Segment>): seq<Segment> {
    if segs == [] then []
    else if Top(segs) == DOT then WithoutDots(Butlast(segs))
    else WithoutDots(Butlast(segs)) + [Top(segs)]
  }

  /** Every "." is dropped. */
  lemma {:induction false} WithoutDotsHasNone(segs: seq<Segment>)
    ensures DOT !in WithoutDots(segs)
    ensures Plain(segs) ==> Plain(WithoutDots(segs))
  {
    if segs != [] { WithoutDotsHasNone(Butlast(segs)); }
  }

  /** Nothing but "." is dropped, and the order is kept: a segment goes to the
      place that counts the other segments in front of it. */
  lemma {:induction false} WithoutDotsKeepsTheRest(segs: seq<Segment>, i: nat)
    requires i < |segs| && segs[i] != DOT
    ensures |WithoutDots(segs[..i])| < |WithoutDots(segs)|
    ensures WithoutDots(segs)[|WithoutDots(segs[..i])|] == segs[i]
  {
    if i == |segs| - 1 {
      assert segs[..i] == Butlast(segs);
    } else {
      assert Butlast(segs)[..i] == segs[..i];
      WithoutDotsKeepsTheRest(Butlast(segs), i);
    }
  }

  /** What is kept are the segments other than ".", as often as they occurred. */
  lemma {:induction false} WithoutDotsAddsNothing(segs: seq<Segment>, s: Segment)
    requires s != DOT
    ensures multiset(WithoutDots(segs))[s] == multiset(segs)[s]
  {
    if segs != [] {
      WithoutDotsAddsNothing(Butlast(segs), s);
      assert segs == Butlast(segs) + [Top(segs)];
    }
  }

  /** A final "." becomes `last`: the code blanks it with a NUL byte that stays
      in the path, RFC 2396 leaves an empty last segment. */
  function DropDots(segs: seq<Segment>, last: Segment): seq<Segment>
    requires |segs| > 0
  {
    WithoutDots(Butlast(segs)) + [if Top(segs) == DOT then last else Top(segs)]
  }

  lemma WithoutDotsPush(segs: seq<Segment>, s: Segment)
    ensures WithoutDots(segs + [s]) == WithoutDots(segs) + if s == DOT then [] else [s]
  {
    assert Butlast(segs + [s]) == segs;
  }

  lemma {:induction false} WithoutDotsAppend(a: seq<Segment>, b: seq<Segment>)
    ensures WithoutDots(a + b) == WithoutDots(a) + WithoutDots(b)
  {
    hide WithoutDots;
    if b == [] {
      NoDots();
      assert a + b == a;
    } else {
      var init, s := Butlast(b), Top(b);
      assert b == init + [s] && a + b == (a + init) + [s];
      WithoutDotsPush(init, s);
      WithoutDotsPush(a + init, s);
      WithoutDotsAppend(a, init);
    }
  }

  lemma NoDots()
    ensures WithoutDots([]) == []
  {
  }

  lemma {:induction false} WithoutDotsFixed(a: seq<Segment>)
    requires DOT !in a
    ensures WithoutDots(a) == a
  {
    hide WithoutDots;
    NoDots();
    if a != [] {
      assert a == Butlast(a) + [Top(a)] && Top(a) in a;
      WithoutDotsPush(Butlast(a), Top(a));
      WithoutDotsFixed(Butlast(a));
    }
  }

  // ------------------------------------------------------- ".." segments

  /** A proper extension of "..", such as "..g" or "...". */
  predicate Extends(s: Segment) { |s| > 2 && s[0] == '.' && s[1] == '.' }

  /** The top of the stack is glued to the segment below it. */
  predicate Glued(st: seq<Segment>) {
    |st| >= 2 && Extends(Top(st)) && st[|st| - 2] != DOTDOT
  }

  function Pop(glue: bool, st: seq<Segment>): seq<Segment>
    requires st != []
  {
    if glue && Glued(st) then Pop(glue, Butlast(st)) else Butlast(st)
  }

  predicate Pops(st: seq<Segment>, seg: Segment) { seg == DOTDOT && st != [] && Top(st) != DOTDOT }

  function Fold(glue: bool, st: seq<Segment>, rest: seq<Segment>): (r: seq<Segment>)
    ensures st != [] || rest != [] ==> r != []
    decreases |rest|
  {
    if rest == [] then st
    else if !Pops(st, rest[0]) then Fold(glue, st + [rest[0]], rest[1..])
    else if |rest| == 1 then Pop(glue, st) + [[]]
    else Fold(glue, Pop(glue, st), rest[1..])
  }

  /** No ".." takes away a glued segment. */
  predicate Safe(st: seq<Segment>, rest: seq<Segment>)
    decreases |rest|
  {
    rest == [] ||
    (if !Pops(st, rest[0]) then Safe(st + [rest[0]], rest[1..])
     else !Glued(st) && Safe(Butlast(st), rest[1..]))
  }

  /** ".." occurs only in a leading run. */
  predicate Settled(st: seq<Segment>) {
    forall k :: 0 <= k < |st| && st[k] == DOTDOT ==> forall j :: 0 <= j <= k ==> st[j] == DOTDOT
  }

  predicate AllDotDot(st: seq<Segment>) { forall k :: 0 <= k < |st| ==> st[k] == DOTDOT }

  lemma SettledPush(st: seq<Segment>, seg: Segment)
    requires Settled(st) && !Pops(st, seg)
    ensures Settled(st + [seg])
    ensures seg == DOTDOT ==> AllDotDot(st)
  {
  }

  lemma {:induction false} PopShrinks(glue: bool, st: seq<Segment>)
    requires st != [] && Settled(st) && Top(st) != DOTDOT
    ensures Pop(glue, st) <= Butlast(st) && Settled(Pop(glue, st))
    ensures st[0] == DOTDOT ==> Pop(glue, st) != []
    ensures Height(Pop(glue, st)) < Height(st)
    ensures !(glue && Glued(st)) ==> Height(Pop(glue, st)) == Height(st) - 1
    ensures glue && Glued(st) ==> Height(Pop(glue, st)) < Height(st) - 1
  {
    if glue && Glued(st) { PopShrinks(glue, Butlast(st)); }
  }

  /** Segments below the root count negative. */
  function Height(st: seq<Segment>): int {
    if st == [] then 0 else Height(Butlast(st)) + (if Top(st) == DOTDOT then -1 else 1)
  }

  lemma HeightPush(st: seq<Segment>, seg: Segment)
    ensures Height(st + [seg]) == Height(st) + (if seg == DOTDOT then -1 else 1)
  {
    assert Butlast(st + [seg]) == st;
  }

  lemma {:induction false} FoldSettled(glue: bool, st: seq<Segment>, rest: seq<Segment>)
    requires Settled(st)
    ensures Settled(Fold(glue, st, rest))
    ensures st != [] && st[0] == DOTDOT ==> Fold(glue, st, rest) != [] && Fold(glue, st, rest)[0] == DOTDOT
    decreases |rest|
  {
    if rest != [] {
      if !Pops(st, rest[0]) {
        SettledPush(st, rest[0]);
        FoldSettled(glue, st + [rest[0]], rest[1..]);
      } else {
        PopShrinks(glue, st);
        if |rest| > 1 { FoldSettled(glue, Pop(glue, st), rest[1..]); }
      }
    }
  }

  /** What is already settled is not changed by what follows. */
  lemma {:induction false} FoldOver(glue: bool, st: seq<Segment>, done: seq<Segment>, rest: seq<Segment>)
    requires Settled(st + done)
    ensures Fold(glue, st, done + rest) == Fold(glue, st + done, rest)
    decreases |done|
  {
    if done == [] {
      assert done + rest == rest && st + done == st;
    } else {
      var d := done[0];
      assert (done + rest)[1..] == done[1..] + rest;
      assert st + done == (st + [d]) + done[1..];
      assert !Pops(st, d) by {
        assert (st + done)[|st|] == d;
        if d == DOTDOT && st != [] { assert (st + done)[|st| - 1] == Top(st); }
      }
      FoldOver(glue, st + [d], done[1..], rest);
    }
  }

  // --------------------------------------------- when both readings agree

  /** One step with more to come. */
  function Push(glue: bool, st: seq<Segment>, seg: Segment): seq<Segment> {
    if Pops(st, seg) then Pop(glue, st) else st + [seg]
  }

  lemma PushLowers(a: seq<Segment>, b: seq<Segment>, seg: Segment)
    requires Settled(a) && Settled(b) && Height(a) < Height(b)
    ensures Settled(Push(true, a, seg)) && Settled(Push(false, b, seg))
    ensures Height(Push(true, a, seg)) < Height(Push(false, b, seg))
  {
    if Pops(a, seg) { PopShrinks(true, a); } else { SettledPush(a, seg); HeightPush(a, seg); }
    if Pops(b, seg) { PopShrinks(false, b); } else { SettledPush(b, seg); HeightPush(b, seg); }
  }

  lemma FoldOne(glue: bool, st: seq<Segment>, rest: seq<Segment>)
    requires |rest| == 1
    ensures Fold(glue, st, rest) == if Pops(st, rest[0]) then Pop(glue, st) + [[]] else st + rest
  {
    assert rest == [rest[0]] && rest[1..] == [];
  }

  /** Lower than a stack of ".." only: there is a ".." at the bottom. */
  lemma {:induction false} LowThroughDots(a: seq<Segment>, b: seq<Segment>)
    requires Settled(a) && AllDotDot(b) && Height(a) < Height(b)
    ensures a != [] && a[0] == DOTDOT
  {
    DotsAreLow(b);
    NoDotsIsHigh(a);
  }

  lemma {:induction false} DotsAreLow(b: seq<Segment>)
    requires AllDotDot(b)
    ensures Height(b) == -|b|
  {
    if b != [] { DotsAreLow(Butlast(b)); }
  }

  lemma {:induction false} NoDotsIsHigh(a: seq<Segment>)
    ensures Height(a) <= |a|
    ensures DOTDOT !in a ==> Height(a) == |a|
    ensures Settled(a) && Height(a) < 0 ==> a[0] == DOTDOT
  {
    if a != [] {
      NoDotsIsHigh(Butlast(a));
      if Settled(a) && Height(a) < 0 && Top(a) == DOTDOT { assert a[|a| - 1] == DOTDOT; }
    }
  }

  /** Once the glued reading stands lower, the results differ for good. */
  lemma {:induction false} LowerStaysLower(a: seq<Segment>, b: seq<Segment>, rest: seq<Segment>)
    requires Settled(a) && Settled(b) && Height(a) < Height(b)
    ensures Fold(true, a, rest) != Fold(false, b, rest)
    ensures DOTDOT !in Fold(true, a, rest) ==> Height(Fold(true, a, rest)) < Height(Fold(false, b, rest))
    decreases |rest|
  {
    if |rest| == 1 {
      var h := rest[0];
      var a', b' := Fold(true, a, rest), Fold(false, b, rest);
      FoldOne(true, a, rest);
      FoldOne(false, b, rest);
      if Pops(a, h) && !Pops(b, h) {
        assert Top(a') != Top(b');
        LowThroughDots(a, b);
        PopShrinks(true, a);
        assert DOTDOT in a' by { assert a'[0] == DOTDOT; }
      } else if !Pops(a, h) && Pops(b, h) {
        assert Top(a') == DOTDOT != Top(b');
      } else if Pops(a, h) {
        PushLowers(a, b, h);
        HeightPush(Pop(true, a), []);
        HeightPush(Pop(false, b), []);
      } else {
        HeightPush(a, h);
        HeightPush(b, h);
        assert rest == [h];
      }
    } else if |rest| > 1 {
      PushLowers(a, b, rest[0]);
      LowerStaysLower(Push(true, a, rest[0]), Push(false, b, rest[0]), rest[1..]);
    }
  }

  /** The code's reading and the one of RFC 2396 agree exactly when no ".."
      takes away a glued segment. */
  lemma {:induction false} ReadingsAgreeIff(st: seq<Segment>, rest: seq<Segment>)
    requires Settled(st)
    ensures Fold(true, st, rest) == Fold(false, st, rest) <==> Safe(st, rest)
    ensures !Safe(st, rest) && DOTDOT !in Fold(true, st, rest) ==>
      Height(Fold(true, st, rest)) < Height(Fold(false, st, rest))
    decreases |rest|
  {
    if rest != [] {
      if !Pops(st, rest[0]) {
        SettledPush(st, rest[0]);
        ReadingsAgreeIff(st + [rest[0]], rest[1..]);
      } else {
        PopShrinks(true, st);
        PopShrinks(false, st);
        var a, b := Pop(true, st), Pop(false, st);
        if Glued(st) {
          if |rest| == 1 {
            HeightPush(a, []);
            HeightPush(b, []);
          } else {
            LowerStaysLower(a, b, rest[1..]);
          }
        } else if |rest| > 1 {
          ReadingsAgreeIff(b, rest[1..]);
        }
      }
    }
  }

  // --------------------------------------------------- surviving ".."

  function FirstNonEmpty(segs: seq<Segment>): Segment {
    if segs == [] then [] else if segs[0] != [] then segs[0] else FirstNonEmpty(segs[1..])
  }

  /** After the rewriting, surviving ".." segments form a leading run, so
      looking at the first non-empty segment finds whether there is one. */
  lemma SurvivorsLead(glue: bool, segs: seq<Segment>)
    requires segs != []
    ensures var f := Fold(glue, [], segs);
      Settled(f) && (FirstNonEmpty(f) == DOTDOT <==> DOTDOT in f)
  {
    FoldSettled(glue, [], segs);
    var f := Fold(glue, [], segs);
    FirstIsMember(f);
    if DOTDOT in f {
      var k :| 0 <= k < |f| && f[k] == DOTDOT;
      assert f[0] == DOTDOT;
    }
  }

  lemma {:induction false} FirstIsMember(segs: seq<Segment>)
    ensures FirstNonEmpty(segs) == [] || FirstNonEmpty(segs) in segs
  {
    if segs != [] && segs[0] == [] { FirstIsMember(segs[1..]); }
  }

  lemma {:induction false} FoldPlain(glue: bool, st: seq<Segment>, rest: seq<Segment>)
    requires Settled(st) && Plain(st) && Plain(rest)
    ensures Plain(Fold(glue, st, rest))
    decreases |rest|
  {
    if rest != [] {
      if !Pops(st, rest[0]) {
        SettledPush(st, rest[0]);
        FoldPlain(glue, st + [rest[0]], rest[1..]);
      } else {
        PopShrinks(glue, st);
        if |rest| > 1 { FoldPlain(glue, Pop(glue, st), rest[1..]); }
      }
    }
  }

  // ------------------------------------------------------ absolute paths

  /** For an absolute path (an empty segment before the first '/'), reducing
      the whole list keeps the leading '/' and reduces the rest as section 5.2
      of RFC 2396 does, exactly when the path never climbs above its root. */
  lemma AbsoluteIff(segs: seq<Segment>)
    requires segs != []
    ensures Fold(false, [], [[]] + segs) == [[]] + Fold(false, [], segs) <==> DOTDOT !in Fold(false, [], segs)
  {
    assert ([[]] + segs)[1..] == segs;
    var none: seq<Segment> := [];
    assert none + [[]] == [[]] && [[]] + none == [[]];
    assert Fold(false, none, [[]] + segs) == Fold(false, [[]] + none, segs);
    UnderRoot(none, segs);
  }

  lemma {:induction false} UnderRoot(st: seq<Segment>, rest: seq<Segment>)
    requires DOTDOT !in st && rest != []
    ensures Fold(false, [[]] + st, rest) == [[]] + Fold(false, st, rest) <==> DOTDOT !in Fold(false, st, rest)
    decreases |rest|
  {
    var h := rest[0];
    var up := [[]] + st;
    assert Top(up) == if st == [] then [] else Top(st);
    if h != DOTDOT {
      assert (up + [h]) == [[]] + (st + [h]);
      if |rest| > 1 { UnderRoot(st + [h], rest[1..]); }
    } else if st != [] {
      assert Top(st) in st;
      assert Pop(false, up) == [[]] + Pop(false, st);
      if |rest| == 1 {
        assert [[]] + (Pop(false, st) + [[]]) == Pop(false, up) + [[]];
      } else {
        UnderRoot(Pop(false, st), rest[1..]);
      }
    } else {
      var r := Fold(false, [DOTDOT], rest[1..]);
      assert st + [DOTDOT] == [DOTDOT];
      assert Fold(false, st, rest) == r;
      FoldSettled(false, [DOTDOT], rest[1..]);
      assert r[0] in r;
      FoldSettled(false, up, rest);
      var x := [[]] + r;
      assert x[0] != DOTDOT && x[1] == DOTDOT;
      assert !Settled(x);
    }
  }

  // -------------------------------------------------- the last segment

  /** Reduces segments that are not the last ones. */
  function Run(glue: bool, st: seq<Segment>, rest: seq<Segment>): seq<Segment>
    decreases |rest|
  {
    if rest == [] then st else Run(glue, Push(glue, st, rest[0]), rest[1..])
  }

  /** A last segment is put on top, or leaves an empty one when it pops. */
  lemma {:induction false} FoldRun(glue: bool, st: seq<Segment>, init: seq<Segment>, last: Segment)
    ensures var a := Run(glue, st, init);
      Fold(glue, st, init + [last]) == if Pops(a, last) then Pop(glue, a) + [[]] else a + [last]
    decreases |init|
  {
    var all := init + [last];
    if init == [] {
      assert all[1..] == [];
      FoldOne(glue, st, all);
    } else {
      assert all[1..] == init[1..] + [last];
      FoldRun(glue, Push(glue, st, init[0]), init[1..], last);
    }
  }

  /** A last ".." leaves an empty segment or stays. */
  lemma {:induction false} LastOfFold(glue: bool, st: seq<Segment>, rest: seq<Segment>)
    requires rest != []
    ensures Top(rest) == DOTDOT ==> Top(Fold(glue, st, rest)) in [[], DOTDOT]
    ensures Top(rest) != DOTDOT ==> Top(Fold(glue, st, rest)) == Top(rest)
    decreases |rest|
  {
    if |rest| == 1 {
      FoldOne(glue, st, rest);
    } else {
      LastOfFold(glue, Push(glue, st, rest[0]), rest[1..]);
    }
  }

  lemma NothingToFold(glue: bool, segs: seq<Segment>)
    requires DOTDOT !in segs
    ensures Fold(glue, [], segs) == segs
  {
    var empty: seq<Segment> := [];
    assert segs + empty == segs && empty + segs == segs;
    FoldOver(glue, empty, segs, empty);
  }

  // ------------------------------------------- climbing, by counting ".."

  /** From a stack of `n` segments, no beginning of the path has more ".." than
      `n` and its other segments together. */
  predicate NeverClimbs(n: nat, rest: seq<Segment>) {
    forall k :: 0 <= k <= |rest| ==> n + Height(rest[..k]) >= 0
  }

  lemma {:induction false} HeightOver(a: seq<Segment>, b: seq<Segment>)
    ensures Height(a + b) == Height(a) + Height(b)
  {
    if b == [] {
      assert a + b == a;
    } else {
      assert Butlast(a + b) == a + Butlast(b);
      HeightOver(a, Butlast(b));
    }
  }

  lemma HeightFrom(rest: seq<Segment>, k: nat)
    requires 0 < k <= |rest|
    ensures Height(rest[..k]) == (if rest[0] == DOTDOT then -1 else 1) + Height(rest[1..][..k - 1])
  {
    var one := rest[..1];
    assert rest[..k] == one + rest[1..][..k - 1];
    HeightOver(one, rest[1..][..k - 1]);
    assert Height(one) == (if rest[0] == DOTDOT then -1 else 1) by { assert Butlast(one) == []; }
  }

  lemma NeverClimbsNext(n: nat, rest: seq<Segment>)
    requires rest != []
    ensures rest[0] != DOTDOT ==> (NeverClimbs(n, rest) <==> NeverClimbs(n + 1, rest[1..]))
    ensures rest[0] == DOTDOT && n > 0 ==> (NeverClimbs(n, rest) <==> NeverClimbs(n - 1, rest[1..]))
    ensures rest[0] == DOTDOT && n == 0 ==> !NeverClimbs(n, rest)
  {
    hide Height;
    var h := if rest[0] == DOTDOT then -1 else 1;
    var tail := rest[1..];
    assert Height(rest[..0]) == 0 == Height(tail[..0]) by { NothingIsLevel(rest); NothingIsLevel(tail); }
    forall k | 1 <= k <= |rest| ensures Height(rest[..k]) == h + Height(tail[..k - 1]) { HeightFrom(rest, k); }
    assert Height(rest[..1]) == h;
    if n + h >= 0 {
      if NeverClimbs(n, rest) {
        forall k | 0 <= k <= |tail| ensures n + h + Height(tail[..k]) >= 0 {
          assert Height(rest[..k + 1]) == h + Height(tail[..k + 1 - 1]);
        }
      }
    }
  }

  lemma NothingIsLevel(rest: seq<Segment>)
    ensures Height(rest[..0]) == 0
  {
    assert rest[..0] == [];
  }

  /** A ".." survives exactly when some beginning of the path has more ".."
      than other segments. */
  lemma {:induction false} ClimbIff(st: seq<Segment>, rest: seq<Segment>)
    requires DOTDOT !in st
    ensures DOTDOT !in Fold(false, st, rest) <==> NeverClimbs(|st|, rest)
    decreases |rest|
  {
    hide NeverClimbs, Height;
    if rest == [] {
      assert NeverClimbs(|st|, rest) by { StandsStill(|st|, rest); }
    } else {
      NeverClimbsNext(|st|, rest);
      if rest[0] != DOTDOT {
        ClimbIff(st + [rest[0]], rest[1..]);
      } else if st == [] {
        var d := [DOTDOT];
        assert st + d == d;
        FoldSettled(false, d, rest[1..]);
        assert Fold(false, d, rest[1..])[0] in Fold(false, d, rest[1..]);
      } else {
        assert Top(st) in st;
        if |rest| == 1 { StandsStill(|st| - 1, rest[1..]); } else { ClimbIff(Butlast(st), rest[1..]); }
      }
    }
  }

  lemma StandsStill(n: nat, rest: seq<Segment>)
    requires rest == []
    ensures NeverClimbs(n, rest)
  {
    assert forall k | 0 <= k <= 0 :: rest[..k] == [];
  }

  /** The stack is as high as the counts say. */
  lemma {:induction false} RunHeight(st: seq<Segment>, rest: seq<Segment>)
    ensures Height(Run(false, st, rest)) == Height(st) + Height(rest)
    decreases |rest|
  {
    if rest != [] {
      RunHeight(Push(false, st, rest[0]), rest[1..]);
      HeightPush(st, rest[0]);
      HeightFrom(rest, |rest|);
      assert rest[..|rest|] == rest && rest[1..][..|rest| - 1] == rest[1..];
    }
  }

  /** As many ".." as other segments, the last segment counting only as a ".."
      or when it is not empty. */
  predicate ReducesToNothing(segs: seq<Segment>)
    requires segs != []
  {
    if Top(segs) == DOTDOT then Height(Butlast(segs)) == 1
    else Top(segs) == [] && Height(Butlast(segs)) == 0
  }

  lemma ReducesToNothingIff(segs: seq<Segment>)
    requires segs != [] && DOTDOT !in Fold(false, [], segs)
    ensures Fold(false, [], segs) == [[]] <==> ReducesToNothing(segs)
  {
    var none: seq<Segment> := [];
    var init, last := Butlast(segs), Top(segs);
    var a := Run(false, none, init);
    assert segs == init + [last];
    FoldRun(false, none, init, last);
    RunHeight(none, init);
    RunKeepsClear(init, last);
    NoDotsIsHigh(a);
    LoneEmpty(if last == DOTDOT then Butlast(a) else a, if last == DOTDOT then [] else last);
  }

  lemma LoneEmpty(a: seq<Segment>, last: Segment)
    ensures a + [last] == [[]] <==> a == [] && last == []
  {
    var all := a + [last];
    assert all[|a|] == last;
  }

  /** No ".." is on the stack when none survives. */
  lemma RunKeepsClear(init: seq<Segment>, last: Segment)
    requires DOTDOT !in Fold(false, [], init + [last])
    ensures DOTDOT !in Run(false, [], init)
    ensures last == DOTDOT ==> Pops(Run(false, [], init), last)
  {
    var a := Run(false, [], init);
    var f := Fold(false, [], init + [last]);
    FoldRun(false, [], init, last);
    RunSettled([], init);
    forall k | 0 <= k < |a| && k < |f| && f[k] == a[k] ensures a[k] != DOTDOT { assert f[k] in f; }
    if !Pops(a, last) { assert f[|a|] in f; }
  }

  lemma {:induction false} RunSettled(st: seq<Segment>, rest: seq<Segment>)
    requires Settled(st)
    ensures Settled(Run(false, st, rest))
    decreases |rest|
  {
    if rest != [] {
      if Pops(st, rest[0]) { PopShrinks(false, st); } else { SettledPush(st, rest[0]); }
      RunSettled(Push(false, st, rest[0]), rest[1..]);
    }
  }

  // ------------------------------------------------------------ RFC 2396

  /** Section 5.2 of RFC 2396, step 6: the '/' an absolute path starts with is
      no segment and cannot be popped. */
  function RfcFold(segs: seq<Segment>): (r: seq<Segment>)
    requires segs != []
    ensures r != []
  {
    if |segs| > 1 && segs[0] == [] then [[]] + Fold(false, [], segs[1..]) else Fold(false, [], segs)
  }

  /** An absolute path never climbs above its root. */
  predicate StaysBelowRoot(segs: seq<Segment>) {
    |segs| > 1 && segs[0] == [] ==> NeverClimbs(0, segs[1..])
  }

  lemma RfcFoldUnderRoot(rest: seq<Segment>)
    requires rest != []
    ensures var segs := [[]] + rest;
      Fold(false, [], segs) == RfcFold(segs) <==> NeverClimbs(0, rest)
    ensures !NeverClimbs(0, rest) ==> Fold(false, [], rest)[0] == DOTDOT
  {
    hide Fold, NeverClimbs, Height, FirstNonEmpty, Settled;
    assert ([[]] + rest)[1..] == rest;
    AbsoluteIff(rest);
    ClimbIff([], rest);
    SurvivorsLead(false, rest);
    if !NeverClimbs(0, rest) { SettledHead(Fold(false, [], rest)); }
  }

  lemma SettledHead(f: seq<Segment>)
    requires Settled(f) && DOTDOT in f
    ensures f[0] == DOTDOT
  {
    var k :| 0 <= k < |f| && f[k] == DOTDOT;
  }

  lemma RfcFoldEnds(segs: seq<Segment>)
    requires segs != []
    ensures Top(segs) == DOTDOT ==> Top(RfcFold(segs)) in [[], DOTDOT]
    ensures Top(segs) != DOTDOT ==> Top(RfcFold(segs)) == Top(segs)
  {
    hide Fold;
    if |segs| > 1 && segs[0] == [] {
      var rest := segs[1..];
      LastOfFold(false, [], rest);
      assert Top([[]] + Fold(false, [], rest)) == Top(Fold(false, [], rest)) && Top(segs) == Top(rest);
    } else {
      LastOfFold(false, [], segs);
    }
  }

  lemma RfcFoldIff(segs: seq<Segment>)
    requires segs != []
    ensures Fold(false, [], segs) == RfcFold(segs) <==> StaysBelowRoot(segs)
    ensures !StaysBelowRoot(segs) ==> |RfcFold(segs)| > 1 && RfcFold(segs)[0] == [] && RfcFold(segs)[1] == DOTDOT
  {
    hide Fold, NeverClimbs;
    if |segs| > 1 && segs[0] == [] {
      var rest := segs[1..];
      assert segs == [[]] + rest;
      RfcFoldUnderRoot(rest);
    }
  }

  lemma FoldNext(glue: bool, st: seq<Segment>, h: Segment, tail: seq<Segment>)
    requires tail != []
    ensures Fold(glue, st, [h] + tail) == Fold(glue, if Pops(st, h) then Pop(glue, st) else st + [h], tail)
  {
    assert ([h] + tail)[1..] == tail;
  }

  /** A ".." right behind the root takes the root away. */
  lemma ClimbLosesTheRoot(a: Segment)
    requires a != DOTDOT
    ensures Fold(true, [], [[], DOTDOT, a]) == [a] && RfcFold([[], DOTDOT, a]) == [[], DOTDOT, a]
  {
    hide Fold;
    var none: seq<Segment> := [];
    var d, r, one: seq<Segment> := [DOTDOT], [[]], [a];
    assert none + r == r && none + d == d && none + one == one;
    FoldNext(true, none, [], d + one);
    FoldNext(true, r, DOTDOT, one);
    FoldNext(false, none, DOTDOT, one);
    FoldOne(true, none, one);
    FoldOne(false, d, one);
    assert Pop(true, r) == none;
    assert r + (d + one) == [[], DOTDOT, a];
    assert [[], DOTDOT, a][1..] == d + one;
  }

  /** A glued segment goes together with the one before it. */
  lemma GluedIsLost(a: Segment, g: Segment, b: Segment)
    requires a != DOTDOT && b != DOTDOT && Extends(g)
    ensures Fold(true, [], [a, g, DOTDOT, b]) == [b]
    ensures Fold(false, [], [a, g, DOTDOT, b]) == [a, b]
  {
    var empty: seq<Segment> := [];
    var st := [a, g];
    assert [a, g, DOTDOT, b] == st + [DOTDOT, b] && empty + st == st;
    FoldOver(true, empty, st, [DOTDOT, b]);
    FoldOver(false, empty, st, [DOTDOT, b]);
    assert Butlast(st) == [a] && Butlast([a]) == empty;
    assert [DOTDOT, b][1..] == [b] && [b][1..] == empty;
    assert Pop(true, st) == empty && Pop(false, st) == [a];
    FoldOne(true, empty, [b]);
    FoldOne(false, [a], [b]);
  }

  // ---------------------------------------------- the plain reading, law by law

  lemma PairCancelsFirst(st: seq<Segment>, a: Segment, y: seq<Segment>)
    requires a != DOTDOT && y != []
    ensures Fold(false, st, [a] + ([DOTDOT] + y)) == Fold(false, st, y)
  {
    FoldNext(false, st, a, [DOTDOT] + y);
    FoldNext(false, st + [a], DOTDOT, y);
    assert Pop(false, st + [a]) == st;
    hide Fold;
  }

  /** Section 5.2 of RFC 2396, step 6, case e: a segment and the ".." behind it
      may be taken out wherever they stand. */
  lemma {:induction false} PairCancels(st: seq<Segment>, x: seq<Segment>, a: Segment, y: seq<Segment>)
    requires a != DOTDOT && y != []
    ensures Fold(false, st, x + ([a] + ([DOTDOT] + y))) == Fold(false, st, x + y)
    decreases |x|
  {
    hide Fold, Push;
    var rest := [a] + ([DOTDOT] + y);
    if x == [] {
      assert x + rest == rest && x + y == y;
      PairCancelsFirst(st, a, y);
    } else {
      assert (x + rest)[1..] == x[1..] + rest && (x + y)[1..] == x[1..] + y;
      FoldPush(st, x + rest);
      FoldPush(st, x + y);
      PairCancels(Push(false, st, x[0]), x[1..], a, y);
    }
  }

  lemma FoldPush(st: seq<Segment>, rest: seq<Segment>)
    requires |rest| > 1
    ensures Fold(false, st, rest) == Fold(false, Push(false, st, rest[0]), rest[1..])
  {
  }

  /** Case f: at the end of the path an empty segment is left in their place. */
  lemma LastPairCancels(x: seq<Segment>, a: Segment)
    requires a != DOTDOT
    ensures Fold(false, [], x + [a, DOTDOT]) == Fold(false, [], x + [[]])
  {
    var none: seq<Segment> := [];
    assert x + [a, DOTDOT] == (x + [a]) + [DOTDOT];
    FoldRun(false, none, x + [a], DOTDOT);
    FoldRun(false, none, x, []);
    RunMore(none, x, a);
  }

  lemma {:induction false} RunMore(st: seq<Segment>, x: seq<Segment>, a: Segment)
    requires a != DOTDOT
    ensures Run(false, st, x + [a]) == Run(false, st, x) + [a]
    decreases |x|
  {
    if x == [] {
      assert (x + [a])[1..] == [];
    } else {
      assert (x + [a])[1..] == x[1..] + [a];
      RunMore(Push(false, st, x[0]), x[1..], a);
    }
  }

  /** Where no segment is left in front of a "..", nothing is done. */
  lemma SettledStays(segs: seq<Segment>)
    requires Settled(segs)
    ensures Fold(false, [], segs) == segs
  {
    var none: seq<Segment> := [];
    assert segs + none == segs && none + segs == segs;
    FoldOver(false, none, segs, none);
  }

  /** Only "..g", not ".g", runs into the segment before it. */
  lemma DotDotG()
    ensures Fold(true, [], ["a", "..g", "..", "b"]) == ["b"] && Fold(true, [], ["a", "...", "..", "b"]) == ["b"]
    ensures Fold(true, [], ["a", ".g", "..", "b"]) == ["a", "b"]
  {
    GluedIsLost("a", "..g", "b");
    GluedIsLost("a", "...", "b");
    var none: seq<Segment> := [];
    var st: seq<Segment> := ["a", ".g"];
    assert ["a", ".g", "..", "b"] == st + [DOTDOT, "b"] && none + st == st;
    FoldOver(true, none, st, [DOTDOT, "b"]);
    assert [DOTDOT, "b"][1..] == ["b"] && Pop(true, st) == ["a"];
    FoldOne(true, ["a"], ["b"]);
  }
}
