/** The in-place rewriting of a merged path: removal of "." segments, removal
    of ".." segments, and the test for ".." segments that survive. */
module PathRewrite {
  import opened Segments
  import opened DotSegments
  import opened Memory

  /** Takes the bytes from `lo` to `hi` out of the first `n`, moving the rest
      and the NUL byte behind it down. */
  method CutOut(buf: array<char>, n: nat, lo: nat, hi: nat) returns (left: nat)
    requires lo <= hi <= n < buf.Length
    modifies buf
    ensures left == n - (hi - lo)
    ensures buf[..left] == old(buf[..n])[..lo] + old(buf[..n])[hi..]
  {
    forall k | 0 <= k < n - hi + 1 {
      buf[lo + k] := buf[hi + k];
    }
    left := n - (hi - lo);
  }

  // ------------------------------------------------------- scan position

  /** `cur` is the segments `done`, then `todo`; the scan stands at `i` inside
      or just behind the first segment of `todo`. */
  ghost predicate At(cur: seq<char>, done: seq<Segment>, todo: seq<Segment>, i: int) {
    && todo != [] && Plain(done) && Plain(todo)
    && cur == Lead(done) + Join(todo)
    && |Lead(done)| <= i <= |Lead(done)| + |todo[0]|
  }

  lemma Look(cur: seq<char>, done: seq<Segment>, todo: seq<Segment>, i: int)
    requires At(cur, done, todo, i)
    ensures var j := |Lead(done)|;
      && j + |todo[0]| <= |cur|
      && cur[j..j + |todo[0]|] == todo[0]
      && (i < |cur| ==> (cur[i] == '/' <==> i == j + |todo[0]|))
      && (i == |cur| ==> |todo| == 1)
      && (|todo| == 1 ==> cur == Lead(done) + todo[0])
      && (|todo| > 1 ==> cur == Lead(done) + todo[0] + ['/'] + Join(todo[1..]) && j + |todo[0]| < |cur|)
  {
    var head := todo[0];
    assert NoSlash(head);
    var behind := if |todo| > 1 then ['/'] + Join(todo[1..]) else [];
    if |todo| > 1 {
      assert todo == [head] + todo[1..];
      JoinCons(head, todo[1..]);
      assert Join(todo) == head + behind;
    } else {
      assert Join(todo) == head + behind;
    }
    hide *;
    LookAt(cur, Lead(done), head, behind, i);
  }

  lemma LookAt(cur: seq<char>, lead: seq<char>, head: seq<char>, behind: seq<char>, i: int)
    requires cur == lead + (head + behind) && |lead| <= i <= |lead| + |head|
    requires NoSlash(head) && (behind != [] ==> behind[0] == '/')
    ensures var j := |lead|;
      && cur[j..j + |head|] == head
      && cur == lead + head + behind
      && (i < |cur| ==> (cur[i] == '/' <==> i == j + |head|))
  {
    if i < |lead| + |head| { assert cur[i] == head[i - |lead|]; }
  }

  lemma Start(cur: seq<char>)
    ensures At(cur, [], Split(cur), 0)
  {
    JoinSplit(cur);
    SplitPlain(cur);
  }

  /** The scan passes the '/' behind the first segment of `todo`. */
  lemma Pass(cur: seq<char>, done: seq<Segment>, todo: seq<Segment>, i: int)
    requires At(cur, done, todo, i) && i < |cur| && cur[i] == '/'
    ensures At(cur, done + [todo[0]], todo[1..], i + 1)
    ensures |Lead(done + [todo[0]])| == i + 1
  {
    Look(cur, done, todo, i);
    LeadAppend(done, [todo[0]]);
    LeadOne(todo[0]);
  }

  // ------------------------------------------------------- "." segments

  /** `done` are the segments kept so far; nothing but "." was dropped. */
  ghost predicate Kept(all: seq<Segment>, done: seq<Segment>, todo: seq<Segment>) {
    && all != [] && todo != [] && DOT !in done
    && WithoutDots(Butlast(all)) == done + WithoutDots(Butlast(todo))
    && Top(todo) == Top(all)
  }

  lemma KeepOn(all: seq<Segment>, done: seq<Segment>, todo: seq<Segment>)
    requires Kept(all, done, todo) && |todo| > 1
    ensures todo[0] == DOT ==> Kept(all, done, todo[1..])
    ensures todo[0] != DOT ==> Kept(all, done + [todo[0]], todo[1..])
  {
    assert Butlast(todo) == [todo[0]] + Butlast(todo[1..]);
    WithoutDotsAppend([todo[0]], Butlast(todo[1..]));
    assert WithoutDots([todo[0]]) == if todo[0] == DOT then [] else [todo[0]] by {
      assert Butlast([todo[0]]) == [];
    }
  }

  lemma AllKept(all: seq<Segment>, done: seq<Segment>, todo: seq<Segment>)
    requires Kept(all, done, todo) && |todo| == 1
    ensures DropDots(all, [NUL]) == done + [if todo[0] == DOT then [NUL] else todo[0]]
    ensures Join(DropDots(all, [NUL])) == Lead(done) + if todo[0] == DOT then [NUL] else todo[0]
  {
    assert Butlast(todo) == [];
  }

  /** Cutting the first segment of `todo` and its '/' out of the text. */
  lemma CutFirst(cur: seq<char>, done: seq<Segment>, todo: seq<Segment>, i: int)
    requires At(cur, done, todo, i) && i < |cur| && cur[i] == '/'
    ensures At(cur[..|Lead(done)|] + cur[i + 1..], done, todo[1..], |Lead(done)|)
  {
    Look(cur, done, todo, i);
    assert cur[..|Lead(done)|] == Lead(done);
    assert cur[i + 1..] == Join(todo[1..]);
  }

  /** The state of the scan: `all` is what the path was, `cur` what it is. */
  ghost predicate PointScan(all: seq<Segment>, cur: seq<char>, segment: nat, i: nat) {
    exists done, todo :: At(cur, done, todo, i) && segment == |Lead(done)| && Kept(all, done, todo)
  }

  lemma PointStart(cur: seq<char>)
    ensures PointScan(Split(cur), cur, 0, 0)
  {
    Start(cur);
    var done: seq<Segment> := [];
    assert Kept(Split(cur), done, Split(cur)) && At(cur, done, Split(cur), 0);
  }

  lemma PointStep(all: seq<Segment>, cur: seq<char>, segment: nat, i: nat)
    requires PointScan(all, cur, segment, i) && i < |cur|
    ensures segment <= i
    ensures cur[i] != '/' ==> PointScan(all, cur, segment, i + 1)
    ensures cur[i] == '/' && i - segment == 1 && cur[i - 1] == '.' ==>
      PointScan(all, cur[..segment] + cur[i + 1..], segment, segment)
    ensures cur[i] == '/' && !(i - segment == 1 && cur[i - 1] == '.') ==> PointScan(all, cur, i + 1, i + 1)
  {
    var done, todo :| At(cur, done, todo, i) && segment == |Lead(done)| && Kept(all, done, todo);
    Look(cur, done, todo, i);
    if cur[i] == '/' {
      KeepOn(all, done, todo);
      if i - segment == 1 && cur[i - 1] == '.' {
        assert todo[0] == DOT;
        CutFirst(cur, done, todo, i);
      } else {
        Pass(cur, done, todo, i);
      }
    } else {
      assert At(cur, done, todo, i + 1);
    }
  }

  lemma PointEnd(all: seq<Segment>, cur: seq<char>, segment: nat)
    requires PointScan(all, cur, segment, |cur|)
    ensures all != [] && segment <= |cur|
    ensures segment + 1 == |cur| && cur[segment] == '.' ==> Join(DropDots(all, [NUL])) == cur[segment := NUL]
    ensures !(segment + 1 == |cur| && cur[segment] == '.') ==> Join(DropDots(all, [NUL])) == cur
  {
    var done, todo :| At(cur, done, todo, |cur|) && segment == |Lead(done)| && Kept(all, done, todo);
    Look(cur, done, todo, |cur|);
    AllKept(all, done, todo);
  }

  /** Removes every "." segment that is not the last one; a last "." is
      overwritten by a NUL byte. */
  method RemovePoint(buf: array<char>, size: nat) returns (n: nat)
    requires size < buf.Length
    modifies buf
    ensures n <= size
    ensures buf[..n] == Join(DropDots(Split(old(buf[..size])), [NUL]))
  {
    hide *;
    n := size;
    var i, segment := 0, 0;
    ghost var all := Split(buf[..n]);
    PointStart(buf[..n]);
    while true
      invariant segment <= i <= n <= size
      invariant PointScan(all, buf[..n], segment, i)
      decreases n
    {
      ghost var cur := buf[..n];
      while i < n
        invariant segment <= i <= n == |cur| && buf[..n] == cur
        invariant PointScan(all, cur, segment, i)
      {
        PointStep(all, cur, segment, i);
        if buf[i] == '/' {
          if i - segment == 1 && buf[i - 1] == '.' {
            n := CutOut(buf, n, segment, i + 1);
            i := segment;
            break;
          }
          segment := i + 1;
        }
        i := i + 1;
      }
      if i >= n {
        break;
      }
    }
    PointEnd(all, buf[..n], segment);
    if segment + 1 == n && buf[segment] == '.' {
      buf[segment] := NUL;
    }
  }

  // ------------------------------------------------------ ".." segments

  /** The segments of `done` from `m` on, and the first one of `todo`, form the
      block the code's segment start points to. */
  ghost predicate Block(done: seq<Segment>, todo: seq<Segment>, m: nat) {
    && m <= |done| && todo != []
    && Settled(done)
    && (forall k :: m <= k < |done| ==> done[k] != DOTDOT)
    && (forall k :: m < k < |done| ==> Extends(done[k]))
    && (m < |done| ==> Extends(todo[0]))
    && (todo[0] == DOTDOT ==> AllDotDot(done))
    && (m > 0 && Extends((done + [todo[0]])[m]) ==> done[m - 1] == DOTDOT)
  }

  lemma {:induction false} PopTo(st: seq<Segment>, m: nat)
    requires m < |st|
    requires forall k :: m < k < |st| ==> Extends(st[k])
    requires forall k :: m <= k < |st| - 1 ==> st[k] != DOTDOT
    requires !Glued(st[..m + 1])
    ensures Pop(true, st) == st[..m]
  {
    if m + 1 == |st| {
      assert st[..m + 1] == st;
    } else {
      var below := Butlast(st);
      assert below[..m + 1] == st[..m + 1];
      PopTo(below, m);
    }
  }

  /** Popping at the end of a block removes the block. */
  lemma PopBlock(done: seq<Segment>, todo: seq<Segment>, m: nat)
    requires Block(done, todo, m) && todo[0] != DOTDOT
    ensures Settled(done + [todo[0]]) && Pop(true, done + [todo[0]]) == done[..m]
  {
    var st := done + [todo[0]];
    PopTo(st, m);
    assert st[..m] == done[..m];
  }

  /** The code's ".." test looks at the block, and finds a lone "..". */
  lemma LoneDotDot(cur: seq<char>, done: seq<Segment>, todo: seq<Segment>, m: nat, i: int)
    requires At(cur, done, todo, i) && Block(done, todo, m) && i < |cur| && cur[i] == '/'
    ensures var segment := |Lead(done[..m])|;
      && segment <= i
      && (i - segment == 2 && cur[i - 1] == '.' && cur[i - 2] == '.' <==> todo[0] == DOTDOT)
      && (todo[0] == DOTDOT ==> m == |done| && AllDotDot(done))
  {
    Look(cur, done, todo, i);
    var block := done[m..];
    assert done == done[..m] + block;
    assert Lead(done) <= cur && (m < |done| ==> todo[0] != DOTDOT);
    hide Plain, NoSlash, Settled, Join;
    LeadAppend(done[..m], block);
    if m < |done| {
      LeadEnds(block);
      assert Lead(done)[|Lead(done)| - 1] == '/';
      assert cur[|Lead(done)| - 1] == '/';
    } else {
      assert done[..m] == done;
    }
  }

  lemma LeadEnds(segs: seq<Segment>)
    requires segs != []
    ensures Lead(segs) != [] && Lead(segs)[|Lead(segs)| - 1] == '/'
  {
  }

  /** A segment at the front of `rest`, read from the bytes. */
  lemma DotsAhead(rest: seq<char>, next: Segment)
    requires |next| <= |rest| && rest[..|next|] == next && NoSlash(next)
    requires |next| == |rest| || rest[|next|] == '/'
    ensures var dots := 1 < |rest| && rest[0] == '.' && rest[1] == '.';
      && (dots <==> next == DOTDOT || Extends(next))
      && (dots ==> (2 < |rest| && rest[2] == '/' <==> next == DOTDOT && |next| < |rest|))
      && (dots ==> (2 == |rest| <==> next == DOTDOT && |next| == |rest|))
  {
    assert forall k :: 0 <= k < |next| ==> rest[k] == next[k];
    if |next| == 2 { assert next == [next[0], next[1]]; }
  }

  /** The segment behind a '/', read from the bytes. */
  lemma Ahead(cur: seq<char>, done: seq<Segment>, todo: seq<Segment>, i: int)
    requires At(cur, done, todo, i) && i < |cur| && cur[i] == '/'
    ensures |todo| > 1
    ensures var dots := i + 2 < |cur| && cur[i + 1] == '.' && cur[i + 2] == '.';
      && (dots <==> todo[1] == DOTDOT || Extends(todo[1]))
      && (dots ==> (i + 3 < |cur| && cur[i + 3] == '/' <==> todo[1] == DOTDOT && |todo| > 2))
      && (dots ==> (i + 3 == |cur| <==> todo[1] == DOTDOT && |todo| == 2))
  {
    Look(cur, done, todo, i);
    Pass(cur, done, todo, i);
    Look(cur, done + [todo[0]], todo[1..], i + 1);
    var next := todo[1];
    var rest := cur[i + 1..];
    assert rest[..|next|] == next && |rest| == |cur| - i - 1;
    assert |todo| > 2 ==> |rest| > |next| && rest[|next|] == '/';
    assert |todo| == 2 ==> |rest| == |next|;
    hide At, Join, Lead, Plain, NoSlash;
    DotsAhead(rest, next);
  }

  /** Behind `/../` stand the segments behind the "..". */
  lemma AheadText(cur: seq<char>, done: seq<Segment>, todo: seq<Segment>, i: int)
    requires At(cur, done, todo, i) && i < |cur| && cur[i] == '/'
    requires |todo| > 2 && todo[1] == DOTDOT
    ensures i + 4 <= |cur| && cur[i + 4..] == Join(todo[2..])
  {
    Look(cur, done, todo, i);
    Pass(cur, done, todo, i);
    Look(cur, done + [todo[0]], todo[1..], i + 1);
    assert todo[1..][1..] == todo[2..];
    hide At, Plain, NoSlash;
    var rest := cur[i + 1..];
    assert rest == DOTDOT + ['/'] + Join(todo[2..]);
    assert rest[3..] == Join(todo[2..]) && cur[i + 4..] == rest[3..];
  }

  /** Taking away `<segment>/../` or a final `<segment>/..` does not change
      what the path reduces to. */
  lemma Cut(done: seq<Segment>, todo: seq<Segment>, m: nat)
    requires Block(done, todo, m) && |todo| > 1 && todo[0] != DOTDOT && todo[1] == DOTDOT
    ensures var rest := if |todo| > 2 then todo[2..] else [[]];
      Fold(true, [], done + todo) == Fold(true, [], done[..m] + rest)
  {
    hide Fold, Pop;
    var empty: seq<Segment> := [];
    var st, tail := done + [todo[0]], todo[1..];
    var rest := if |todo| > 2 then todo[2..] else [[]];
    PopBlock(done, todo, m);
    assert done + todo == st + tail && empty + st == st && empty + done[..m] == done[..m];
    FoldOver(true, empty, st, tail);
    FoldOver(true, empty, done[..m], rest);
    assert Pop(true, st) == done[..m] && Pops(st, tail[0]);
    PopNext(st, tail);
  }

  lemma PopNext(st: seq<Segment>, tail: seq<Segment>)
    requires tail != [] && Pops(st, tail[0])
    ensures Fold(true, st, tail) == Fold(true, Pop(true, st), if |tail| > 1 then tail[1..] else [[]])
  {
    if |tail| == 1 {
      assert Fold(true, Pop(true, st), [[]]) == Fold(true, Pop(true, st) + [[]], []);
    }
  }

  /** A path in which nothing is left to cut is what it reduces to. */
  lemma NothingToCut(done: seq<Segment>, todo: seq<Segment>, m: nat)
    requires Block(done, todo, m) && |todo| == 1
    ensures Fold(true, [], done + todo) == done + todo
  {
    var empty: seq<Segment> := [];
    assert empty + done == done;
    FoldOver(true, empty, done, todo);
    assert todo == [todo[0]] && todo[1..] == [];
  }

  /** The scan passes a '/' that is not followed by a segment to cut. */
  lemma PassBlock(done: seq<Segment>, todo: seq<Segment>, m: nat)
    requires Block(done, todo, m) && |todo| > 1
    ensures var next := done + [todo[0]];
      next + todo[1..] == done + todo && next[..|done| + 1] == next && next[..m] == done[..m]
    ensures todo[0] == DOTDOT ==> Block(done + [todo[0]], todo[1..], |done| + 1)
    ensures todo[0] != DOTDOT && Extends(todo[1]) ==> Block(done + [todo[0]], todo[1..], m)
    ensures todo[0] != DOTDOT && !Extends(todo[1]) && todo[1] != DOTDOT ==>
      Block(done + [todo[0]], todo[1..], |done| + 1)
  {
  }

  /** What the bytes are after a cut. */
  lemma CutText(cur: seq<char>, done: seq<Segment>, m: nat, i: int, behind: seq<char>, rest: seq<Segment>)
    requires m <= |done| && Plain(done) && Plain(rest) && rest != []
    requires |Lead(done)| <= i && Lead(done) <= cur && |behind| <= |cur|
    requires cur[|cur| - |behind|..] == behind == Join(rest)
    ensures var segment := |Lead(done[..m])|;
      && segment <= i && segment <= |cur|
      && cur[..segment] + behind == Join(done[..m] + rest)
      && Split(cur[..segment] + behind) == done[..m] + rest
  {
    assert done == done[..m] + done[m..];
    LeadAppend(done[..m], done[m..]);
    assert cur[..|Lead(done[..m])|] == Lead(done[..m]);
    JoinAppend(done[..m], rest);
    PlainAppend(done[..m], rest);
    SplitJoin(done[..m] + rest);
  }

  lemma PlainTail(a: seq<Segment>, k: nat)
    requires k <= |a|
    ensures Plain(a) ==> Plain(a[k..])
    ensures a == [[]] ==> Plain(a)
  {
  }

  lemma PlainAppend(a: seq<Segment>, b: seq<Segment>)
    requires Plain(a) && Plain(b)
    ensures Plain(a + b)
  {
  }

  /** The state of the scan: `segs` are the segments of `cur`. */
  ghost predicate PointsScan(segs: seq<Segment>, cur: seq<char>, segment: nat, i: nat) {
    exists done: seq<Segment>, todo, m: nat ::
      At(cur, done, todo, i) && Block(done, todo, m) && done + todo == segs && segment == |Lead(done[..m])|
  }

  /** What the code reduces a path to. */
  function Reduced(cur: seq<char>): (segs: seq<Segment>)
    ensures segs != []
  {
    Fold(true, [], Split(cur))
  }

  lemma PointsStart(cur: seq<char>)
    ensures PointsScan(Split(cur), cur, 0, 0)
  {
    Start(cur);
    var done: seq<Segment> := [];
    assert Block(done, Split(cur), 0) && done + Split(cur) == Split(cur) && done[..0] == done;
  }

  /** A byte inside a segment. */
  lemma PointsByte(segs: seq<Segment>, cur: seq<char>, segment: nat, i: nat)
    requires PointsScan(segs, cur, segment, i) && i < |cur| && cur[i] != '/'
    ensures PointsScan(segs, cur, segment, i + 1)
  {
    var done: seq<Segment>, todo, m: nat :|
      At(cur, done, todo, i) && Block(done, todo, m) && done + todo == segs && segment == |Lead(done[..m])|;
    Look(cur, done, todo, i);
    assert At(cur, done, todo, i + 1);
  }

  /** A '/' at which the code moves its segment start. */
  lemma PointsNext(segs: seq<Segment>, cur: seq<char>, segment: nat, i: nat)
    requires PointsScan(segs, cur, segment, i) && i < |cur| && cur[i] == '/'
    requires segment <= i
    requires (i - segment == 2 && cur[i - 1] == '.' && cur[i - 2] == '.')
          || !(i + 2 < |cur| && cur[i + 1] == '.' && cur[i + 2] == '.')
    ensures PointsScan(segs, cur, i + 1, i + 1)
  {
    var done: seq<Segment>, todo, m: nat :|
      At(cur, done, todo, i) && Block(done, todo, m) && done + todo == segs && segment == |Lead(done[..m])|;
    LoneDotDot(cur, done, todo, m, i);
    Ahead(cur, done, todo, i);
    Pass(cur, done, todo, i);
    PassBlock(done, todo, m);
  }

  /** A '/' before a segment such as "..g": the segment start stays. */
  lemma PointsGlue(segs: seq<Segment>, cur: seq<char>, segment: nat, i: nat)
    requires PointsScan(segs, cur, segment, i) && i + 3 < |cur| && cur[i] == '/' && cur[i + 3] != '/'
    requires segment <= i && !(i - segment == 2 && cur[i - 1] == '.' && cur[i - 2] == '.')
    requires cur[i + 1] == '.' && cur[i + 2] == '.'
    ensures PointsScan(segs, cur, segment, i + 1)
  {
    var done: seq<Segment>, todo, m: nat :|
      At(cur, done, todo, i) && Block(done, todo, m) && done + todo == segs && segment == |Lead(done[..m])|;
    LoneDotDot(cur, done, todo, m, i);
    Ahead(cur, done, todo, i);
    Pass(cur, done, todo, i);
    PassBlock(done, todo, m);
  }

  lemma AtABlock(cur: seq<char>, done: seq<Segment>, todo: seq<Segment>, m: nat, i: nat)
    requires At(cur, done, todo, i) && Block(done, todo, m)
    ensures m <= |done| && Plain(done) && Plain(todo) && |Lead(done)| <= i && Lead(done) <= cur
  {
  }

  lemma CutMiddleAt(cur: seq<char>, done: seq<Segment>, todo: seq<Segment>, m: nat, i: nat)
    requires At(cur, done, todo, i) && Block(done, todo, m) && done + todo == Split(cur)
    requires |Lead(done[..m])| <= i && i < |cur| && cur[i] == '/'
    requires todo[0] != DOTDOT && |todo| > 2 && todo[1] == DOTDOT
    ensures i + 4 <= |cur| && Reduced(cur[..|Lead(done[..m])|] + cur[i + 4..]) == Reduced(cur)
  {
    hide Block, Plain, At, Fold, Split, Lead, Join, Pops, Settled;
    AtABlock(cur, done, todo, m, i);
    AheadText(cur, done, todo, i);
    Cut(done, todo, m);
    PlainTail(todo, 2);
    CutText(cur, done, m, i, cur[i + 4..], todo[2..]);
  }

  /** Cutting `<segment>/../` out does not change the result. */
  lemma CutMiddle(segs: seq<Segment>, cur: seq<char>, segment: nat, i: nat)
    requires PointsScan(segs, cur, segment, i) && i + 3 < |cur| && cur[i] == '/' && segs == Split(cur)
    requires segment <= i && !(i - segment == 2 && cur[i - 1] == '.' && cur[i - 2] == '.')
    requires cur[i + 1] == '.' && cur[i + 2] == '.' && cur[i + 3] == '/'
    ensures Reduced(cur[..segment] + cur[i + 4..]) == Reduced(cur)
  {
    var done: seq<Segment>, todo, m: nat :|
      At(cur, done, todo, i) && Block(done, todo, m) && done + todo == segs && segment == |Lead(done[..m])|;
    hide Block, At, Fold, Split, Lead, Reduced;
    LoneDotDot(cur, done, todo, m, i);
    Ahead(cur, done, todo, i);
    CutMiddleAt(cur, done, todo, m, i);
  }

  lemma JoinOfEmpty()
    ensures Join([[]]) == []
  {
  }

  lemma CutLastAt(cur: seq<char>, done: seq<Segment>, todo: seq<Segment>, m: nat, i: nat)
    requires At(cur, done, todo, i) && Block(done, todo, m) && done + todo == Split(cur)
    requires |Lead(done[..m])| <= i && i + 3 == |cur|
    requires todo[0] != DOTDOT && |todo| == 2 && todo[1] == DOTDOT
    ensures Reduced(cur[..|Lead(done[..m])|] + cur[i + 3..]) == Reduced(cur)
  {
    hide Block, Plain, At, Fold, Split, Lead, Join, Pops, Settled;
    AtABlock(cur, done, todo, m, i);
    var rest: seq<Segment> := [[]];
    PlainTail(rest, 0);
    JoinOfEmpty();
    Cut(done, todo, m);
    CutText(cur, done, m, i, cur[i + 3..], rest);
  }

  /** Cutting a final `<segment>/..` out does not change the result. */
  lemma CutLast(segs: seq<Segment>, cur: seq<char>, segment: nat, i: nat)
    requires PointsScan(segs, cur, segment, i) && i + 3 == |cur| && cur[i] == '/' && segs == Split(cur)
    requires segment <= i && !(i - segment == 2 && cur[i - 1] == '.' && cur[i - 2] == '.')
    requires cur[i + 1] == '.' && cur[i + 2] == '.'
    ensures Reduced(cur[..segment] + cur[i + 3..]) == Reduced(cur)
  {
    var done: seq<Segment>, todo, m: nat :|
      At(cur, done, todo, i) && Block(done, todo, m) && done + todo == segs && segment == |Lead(done[..m])|;
    hide Block, At, Fold, Split, Lead, Reduced;
    LoneDotDot(cur, done, todo, m, i);
    Ahead(cur, done, todo, i);
    CutLastAt(cur, done, todo, m, i);
  }

  /** At the end of a scan without a cut the path is reduced. */
  lemma PointsEnd(cur: seq<char>, segment: nat)
    requires PointsScan(Split(cur), cur, segment, |cur|)
    ensures Join(Reduced(cur)) == cur
  {
    var done: seq<Segment>, todo, m: nat :|
      At(cur, done, todo, |cur|) && Block(done, todo, m) && done + todo == Split(cur) && segment == |Lead(done[..m])|;
    Look(cur, done, todo, |cur|);
    NothingToCut(done, todo, m);
    JoinSplit(cur);
  }

  lemma EmptyReduced(cur: seq<char>)
    ensures cur == [] ==> Join(Reduced(cur)) == cur
  {
    if cur == [] {
      PointsStart(cur);
      PointsEnd(cur, 0);
    }
  }

  /** `now` is `was` without the bytes from `lo` on that end in "/../", or in a
      final "/..", at `hi`. */
  predicate PairCut(was: seq<char>, now: seq<char>, lo: nat, at: nat, hi: nat) {
    && lo <= at && at + 2 < |was| && was[at] == '/' && was[at + 1] == '.' && was[at + 2] == '.'
    && (hi == |was| == at + 3 || (hi == at + 4 <= |was| && was[at + 3] == '/'))
    && now == was[..lo] + was[hi..]
  }

  ghost predicate OneCut(was: seq<char>, now: seq<char>) {
    exists lo, at, hi :: PairCut(was, now, lo, at, hi)
  }

  /** One scan from the start, up to and including the first cut; `i` is left
      behind the last byte when there was none, and at 0 otherwise. */
  method CutFirstPoints(buf: array<char>, n: nat) returns (left: nat, i: nat)
    requires n < buf.Length
    modifies buf
    ensures left <= n && (i == 0 || i == left)
    ensures if left == n then buf[..n] == old(buf[..n]) else OneCut(old(buf[..n]), buf[..left])
    ensures Reduced(buf[..left]) == Reduced(old(buf[..n]))
    ensures i < left ==> left < n
    ensures i >= left ==> Join(Reduced(buf[..left])) == buf[..left]
  {
    hide Reduced, PointsScan, Split, Join;
    var segment := 0;
    i := 0;
    ghost var cur := buf[..n];
    ghost var segs := Split(cur);
    PointsStart(cur);
    while i < n
      invariant segment <= i <= n && buf[..n] == cur
      invariant PointsScan(segs, cur, segment, i)
    {
      assert buf[i] == cur[i];
      if buf[i] == '/' {
        if i - segment == 2 && buf[i - 1] == '.' && buf[i - 2] == '.' {
          PointsNext(segs, cur, segment, i);
          segment := i + 1;
        } else if i + 2 < n && buf[i + 1] == '.' && buf[i + 2] == '.' {
          if i + 3 < n && buf[i + 3] == '/' {
            CutMiddle(segs, cur, segment, i);
            left := CutOut(buf, n, segment, i + 4);
            assert PairCut(cur, buf[..left], segment, i, i + 4);
            EmptyReduced(buf[..left]);
            return left, 0;
          } else if i + 3 == n {
            CutLast(segs, cur, segment, i);
            left := CutOut(buf, n, segment, i + 3);
            assert PairCut(cur, buf[..left], segment, i, i + 3);
            EmptyReduced(buf[..left]);
            return left, 0;
          } else {
            PointsGlue(segs, cur, segment, i);
          }
        } else {
          PointsNext(segs, cur, segment, i);
          segment := i + 1;
        }
      } else {
        PointsByte(segs, cur, segment, i);
      }
      i := i + 1;
    }
    left := n;
    PointsEnd(cur, segment);
  }

  /** Removes `<segment>/../` and a final `<segment>/..` until none is left,
      scanning from the start again after each cut. */
  method RemovePoints(buf: array<char>, size: nat) returns (n: nat)
    requires size < buf.Length
    modifies buf
    ensures n <= size
    ensures buf[..n] == Join(Reduced(old(buf[..size])))
  {
    n := size;
    ghost var goal := Reduced(buf[..n]);
    while true
      invariant n <= size && Reduced(buf[..n]) == goal
      decreases n
    {
      var i;
      n, i := CutFirstPoints(buf, n);
      if i >= n {
        break;
      }
    }
  }

  // --------------------------------------------------------- error test

  ghost predicate LeadScan(all: seq<Segment>, cur: seq<char>, segment: nat, i: nat) {
    exists done, todo ::
      At(cur, done, todo, i) && segment == |Lead(done)| && FirstNonEmpty(all) == FirstNonEmpty(todo)
  }

  lemma LeadStart(cur: seq<char>)
    ensures LeadScan(Split(cur), cur, 0, 0)
  {
    Start(cur);
    var done: seq<Segment> := [];
    assert At(cur, done, Split(cur), 0) && |Lead(done)| == 0;
  }

  lemma LeadStep(all: seq<Segment>, cur: seq<char>, segment: nat, i: nat)
    requires LeadScan(all, cur, segment, i) && i < |cur|
    ensures segment <= i
    ensures cur[i] != '/' ==> LeadScan(all, cur, segment, i + 1)
    ensures cur[i] == '/' && i == segment ==> LeadScan(all, cur, i + 1, i + 1)
    ensures cur[i] == '/' && i > segment ==>
      (FirstNonEmpty(all) == DOTDOT <==> i - segment == 2 && cur[i - 1] == '.' && cur[i - 2] == '.')
  {
    var done, todo :| At(cur, done, todo, i) && segment == |Lead(done)| && FirstNonEmpty(all) == FirstNonEmpty(todo);
    Look(cur, done, todo, i);
    if cur[i] == '/' {
      Pass(cur, done, todo, i);
      if i > segment {
        assert FirstNonEmpty(todo) == todo[0];
        TwoDots(cur, segment, i);
      }
    } else {
      assert At(cur, done, todo, i + 1);
    }
  }

  lemma TwoDots(cur: seq<char>, lo: nat, hi: nat)
    requires lo <= hi <= |cur|
    ensures cur[lo..hi] == DOTDOT <==> hi - lo == 2 && cur[hi - 1] == '.' && cur[hi - 2] == '.'
  {
    var s := cur[lo..hi];
    if hi - lo == 2 { assert s == [s[0], s[1]] && s[0] == cur[lo] && s[1] == cur[lo + 1]; }
  }

  lemma LeadEnd(all: seq<Segment>, cur: seq<char>, segment: nat)
    requires LeadScan(all, cur, segment, |cur|)
    ensures segment <= |cur|
    ensures FirstNonEmpty(all) == DOTDOT <==> segment + 2 == |cur| && cur[segment] == '.' && cur[segment + 1] == '.'
  {
    var done, todo :|
      At(cur, done, todo, |cur|) && segment == |Lead(done)| && FirstNonEmpty(all) == FirstNonEmpty(todo);
    Look(cur, done, todo, |cur|);
    hide At, Lead, Join, Split, Plain;
    assert FirstNonEmpty(todo) == todo[0] by { assert FirstNonEmpty(todo[1..]) == []; }
    TwoDots(cur, segment, |cur|);
  }

  /** Reports whether the first non-empty segment is "..". */
  method LeadingPoints(buf: array<char>, n: nat) returns (isError: bool)
    requires n <= buf.Length
    ensures isError <==> FirstNonEmpty(Split(buf[..n])) == DOTDOT
  {
    hide *;
    var segment, i := 0, 0;
    ghost var cur := buf[..n];
    LeadStart(cur);
    while i < n
      invariant segment <= i <= n
      invariant LeadScan(Split(cur), cur, segment, i)
    {
      LeadStep(Split(cur), cur, segment, i);
      if buf[i] == '/' {
        if i - segment == 2 && buf[i - 1] == '.' && buf[i - 2] == '.' {
          return true;
        } else if i - segment > 0 {
          break;
        }
        segment := i + 1;
      }
      i := i + 1;
    }
    if i == n { LeadEnd(Split(cur), cur, segment); }
    isError := segment + 2 == n && buf[segment] == '.' && buf[segment + 1] == '.';
  }

  // ------------------------------------------- the same loops on a string

  /** The scan for "." segments before anything is taken out. */
  ghost predicate FirstPoint(segs: seq<Segment>, cur: seq<char>, segment: nat, i: nat) {
    exists done, todo ::
      At(cur, done, todo, i) && segment == |Lead(done)| && done + todo == segs && DOT !in done
  }

  lemma FirstPointStart(cur: seq<char>)
    ensures FirstPoint(Split(cur), cur, 0, 0)
  {
    Start(cur);
    var done: seq<Segment> := [];
    assert At(cur, done, Split(cur), 0) && done + Split(cur) == Split(cur);
  }

  lemma AtNext(cur: seq<char>, done: seq<Segment>, todo: seq<Segment>, i: nat)
    requires At(cur, done, todo, i) && i < |cur| && cur[i] != '/'
    ensures At(cur, done, todo, i + 1)
  {
    Look(cur, done, todo, i);
  }

  lemma LoneDot(cur: seq<char>, done: seq<Segment>, todo: seq<Segment>, i: nat)
    requires At(cur, done, todo, i) && i < |cur| && cur[i] == '/'
    ensures todo != [] && |todo| > 1 && |Lead(done)| <= i
    ensures i - |Lead(done)| == 1 && cur[i - 1] == '.' <==> todo[0] == DOT
  {
    Look(cur, done, todo, i);
    var s := todo[0];
    assert |s| == 1 ==> s == [s[0]] && s[0] == cur[i - 1];
  }

  lemma FirstPointStep(segs: seq<Segment>, cur: seq<char>, segment: nat, i: nat)
    requires FirstPoint(segs, cur, segment, i) && i < |cur|
    ensures cur[i] == '/' ==> segment <= i
    ensures cur[i] != '/' ==> FirstPoint(segs, cur, segment, i + 1)
    ensures cur[i] == '/' && i - segment == 1 && cur[i - 1] == '.' ==> segs != [] && DOT in Butlast(segs)
    ensures cur[i] == '/' && !(i - segment == 1 && cur[i - 1] == '.') ==> FirstPoint(segs, cur, i + 1, i + 1)
  {
    var done, todo :| At(cur, done, todo, i) && segment == |Lead(done)| && done + todo == segs && DOT !in done;
    hide At, Lead;
    if cur[i] == '/' {
      LoneDot(cur, done, todo, i);
      if todo[0] == DOT {
        assert Butlast(segs)[|done|] == DOT;
      } else {
        Pass(cur, done, todo, i);
        assert done + [todo[0]] + todo[1..] == segs;
      }
    } else {
      AtNext(cur, done, todo, i);
    }
  }

  lemma DropsSome(segs: seq<Segment>)
    requires segs != []
    ensures DropDots(segs, [NUL]) != []
  {
  }

  lemma NoPoint(segs: seq<Segment>, cur: seq<char>, segment: nat)
    requires FirstPoint(segs, cur, segment, |cur|)
    ensures segs != [] && DOT !in Butlast(segs) && PointScan(segs, cur, segment, |cur|)
  {
    var done, todo :|
      At(cur, done, todo, |cur|) && segment == |Lead(done)| && done + todo == segs && DOT !in done;
    Look(cur, done, todo, |cur|);
    hide At, Lead;
    NothingDropped(segs, done, todo);
  }

  lemma NothingDropped(segs: seq<Segment>, done: seq<Segment>, todo: seq<Segment>)
    requires |todo| == 1 && done + todo == segs && DOT !in done
    ensures DOT !in Butlast(segs) && Kept(segs, done, todo)
  {
    assert Butlast(segs) == done && Butlast(todo) == [];
    WithoutDotsFixed(done);
  }

  /** The first function on a string: it scans all `size` bytes of the string's
      buffer, the terminator among them, and does not record a new size.
      `outside`: the copy would read behind the array. */
  method RemoveSegmentPoint(buf: array<char>, size: nat) returns (outside: bool)
    requires size <= buf.Length
    modifies buf
    ensures outside <==> size == buf.Length && DOT in Butlast(Split(old(buf[..size])))
    ensures !outside ==>
      var w := Join(DropDots(Split(old(buf[..size])), [NUL])); |w| <= size && buf[..|w|] == w
  {
    hide *;
    if size < buf.Length {
      var n := RemovePoint(buf, size);
      return false;
    }
    ghost var cur := buf[..size];
    var i, segment := 0, 0;
    FirstPointStart(cur);
    while i < size
      invariant segment <= i <= size && buf[..size] == cur
      invariant FirstPoint(Split(cur), cur, segment, i)
    {
      FirstPointStep(Split(cur), cur, segment, i);
      if buf[i] == '/' {
        if i - segment == 1 && buf[i - 1] == '.' {
          return true;
        }
        segment := i + 1;
      }
      i := i + 1;
    }
    NoPoint(Split(cur), cur, segment);
    PointEnd(Split(cur), cur, segment);
    assert cur == buf[..size];
    if segment + 1 == size && buf[segment] == '.' {
      buf[segment] := NUL;
    }
    DropsSome(Split(cur));
    assert buf[..size] == Join(DropDots(Split(cur), [NUL]));
    outside := false;
  }

  lemma Unsettled(segs: seq<Segment>, k: nat)
    requires k + 1 < |segs| && segs[k] != DOTDOT && segs[k + 1] == DOTDOT
    ensures !Settled(segs)
  {
  }

  /** Where the scan finds something to cut, a ".." stands behind another segment. */
  lemma CutNeeded(segs: seq<Segment>, cur: seq<char>, segment: nat, i: nat)
    requires PointsScan(segs, cur, segment, i) && i + 2 < |cur| && cur[i] == '/'
    requires segment <= i && !(i - segment == 2 && cur[i - 1] == '.' && cur[i - 2] == '.')
    requires cur[i + 1] == '.' && cur[i + 2] == '.' && (i + 3 == |cur| || cur[i + 3] == '/')
    ensures !Settled(segs)
  {
    var done: seq<Segment>, todo, m: nat :|
      At(cur, done, todo, i) && Block(done, todo, m) && done + todo == segs && segment == |Lead(done[..m])|;
    hide Block, At, Lead, Settled;
    LoneDotDot(cur, done, todo, m, i);
    Ahead(cur, done, todo, i);
    Unsettled(done + todo, |done|);
  }

  lemma BlockSettled(done: seq<Segment>, last: Segment, m: nat)
    requires Block(done, [last], m)
    ensures Settled(done + [last])
  {
    SettledPush(done, last);
  }

  /** Where it finds nothing, ".." segments lead. */
  lemma NothingCut(segs: seq<Segment>, cur: seq<char>, segment: nat)
    requires PointsScan(segs, cur, segment, |cur|)
    ensures Settled(segs)
  {
    var done: seq<Segment>, todo, m: nat :|
      At(cur, done, todo, |cur|) && Block(done, todo, m) && done + todo == segs && segment == |Lead(done[..m])|;
    hide Block, Lead, Settled;
    Look(cur, done, todo, |cur|);
    hide At;
    assert todo == [todo[0]];
    BlockSettled(done, todo[0], m);
  }

  /** The second function on a string: it records one byte more than it leaves,
      also when nothing was cut. */
  method RemoveSegmentPoints(buf: array<char>, size: nat) returns (outside: bool, newSize: nat)
    requires size <= buf.Length
    modifies buf
    ensures outside <==> size == buf.Length && !Settled(Split(old(buf[..size])))
    ensures !outside ==>
      var w := Join(Reduced(old(buf[..size]))); |w| <= size && buf[..|w|] == w && newSize == |w| + 1
  {
    hide *;
    newSize := 0;
    if size < buf.Length {
      var n := RemovePoints(buf, size);
      return false, n + 1;
    }
    ghost var cur := buf[..size];
    var i, segment := 0, 0;
    PointsStart(cur);
    while i < size
      invariant segment <= i <= size && buf[..size] == cur
      invariant PointsScan(Split(cur), cur, segment, i)
    {
      if buf[i] == '/' {
        if i - segment == 2 && buf[i - 1] == '.' && buf[i - 2] == '.' {
          PointsNext(Split(cur), cur, segment, i);
          segment := i + 1;
        } else if i + 2 < size && buf[i + 1] == '.' && buf[i + 2] == '.' {
          if i + 3 == size || buf[i + 3] == '/' {
            CutNeeded(Split(cur), cur, segment, i);
            return true, 0;
          }
          PointsGlue(Split(cur), cur, segment, i);
        } else {
          PointsNext(Split(cur), cur, segment, i);
          segment := i + 1;
        }
      } else {
        PointsByte(Split(cur), cur, segment, i);
      }
      i := i + 1;
    }
    NothingCut(Split(cur), cur, segment);
    PointsEnd(cur, segment);
    outside, newSize := false, size + 1;
  }

  lemma EndsInNul(x: seq<char>)
    ensures Split(x + [NUL]) == Butlast(Split(x)) + [Top(Split(x)) + [NUL]]
  {
    var init, last := Butlast(Split(x)), Top(Split(x));
    var segs := init + [last + [NUL]];
    SplitPlain(x);
    JoinSplit(x);
    assert Butlast(segs) == init && Plain(segs);
    assert Join(segs) == x + [NUL];
    SplitJoin(segs);
  }

  /** On a null-terminated text the terminator counts as a byte of the last
      segment: a final "." or ".." is never removed. */
  lemma NulKeepsTheLast(x: seq<char>)
    ensures var y, init, last := x + [NUL], Butlast(Split(x)), Top(Split(x)) + [NUL];
      && DropDots(Split(y), [NUL]) == WithoutDots(init) + [last]
      && Reduced(y) == Run(true, [], init) + [last]
  {
    var init, last := Butlast(Split(x)), Top(Split(x)) + [NUL];
    EndsInNul(x);
    hide WithoutDots, Split, Run, Fold;
    LongLast(init, Top(Split(x)));
    FoldRun(true, [], init, last);
  }

  lemma LongLast(init: seq<Segment>, s: Segment)
    ensures var segs, last := init + [s + [NUL]], s + [NUL];
      Butlast(segs) == init && Top(segs) == last && last != DOT && last != DOTDOT
  {
    var last := s + [NUL];
    assert last[|last| - 1] == NUL;
  }
}
