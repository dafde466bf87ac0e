/** The job ring of the worker pool: a fixed number of slots, a read index, a
    write index and a count, where an index equal to the size is an extra end
    mark standing for slot 0.

    The comments in the C source give the index arithmetic as state tables; the
    C code departs from them in two places.  Both readings are kept here: the
    functions named "...Table" are the documented tables, and "...Written" is
    what the code computes. */
module Ring {
  import opened Options

  // ---------------------------------------------------------------- tables

  function Min(a: nat, b: nat): nat { if a < b then a else b }

  /** Documented next read index. */
  function NextReadTable(r: nat, w: nat, c: nat, n: nat): nat {
    if r == w then
      if c > 0 then
        if r + 1 < n then r + 1 else if w > 0 then 0 else n
      else r
    else if r < w then
      if r + 1 < w then r + 1 else w
    else
      if r + 1 < n then r + 1 else if w > 0 then 0 else n
  }

  /** Documented next write index. */
  function NextWriteTable(r: nat, w: nat, c: nat, n: nat): nat {
    if w == r then
      if c == 0 then
        if w + 1 < n then w + 1 else if r > 0 then 0 else n
      else w
    else if w > r then
      if w + 1 < n then w + 1 else if r > 0 then 0 else n
    else
      if w + 1 < r then w + 1 else r
  }

  /** Documented read check: may a job be taken, and the read index to use. */
  function CheckReadTable(r: nat, w: nat, c: nat, n: nat): (bool, nat) {
    if r == w then (c > 0 && r < n, r)
    else if r < w then (true, r)
    else if r < n then (true, r)
    else if w > 0 then (true, 0)
    else (false, r)
  }

  /** Documented write check: may a job be stored, and the write index to use. */
  function CheckWriteTable(r: nat, w: nat, c: nat, n: nat): (bool, nat) {
    if w == r then (c == 0 && w < n, w)
    else if w > r then
      if w < n then (true, w) else if r > 0 then (true, 0) else (false, w)
    else (true, w)
  }

  /** The write index leaves the end of the ring and restarts at slot 0. */
  predicate WriteWraps(r: nat, w: nat, c: nat, n: nat) {
    (w > r || (w == r && c == 0)) && w + 1 >= n && r > 0
  }

  /** What the code stores as next write index: after a wrap to 0 its second,
      unguarded `if` advances the index once more. */
  function NextWriteWritten(r: nat, w: nat, c: nat, n: nat): nat {
    if WriteWraps(r, w, c, n) then Min(1, r) else NextWriteTable(r, w, c, n)
  }

  // --------------------------------------------------------------- machine

  /** `AsWritten` is the C code, `AsTabled` the documented tables with the
      wrapped index stored before the slot is used. */
  datatype Mode = AsWritten | AsTabled

  datatype Ring<J> = Ring(slots: seq<Option<J>>, read: nat, write: nat, count: nat)

  /** `Overrun`: the code addresses the cell behind the last slot, where C
      gives it no meaning. */
  datatype Outcome<J> = Refused | Overrun | Done(ring: Ring<J>, slot: nat)

  function Start<J>(n: nat): Ring<J> {
    Ring(seq(n, _ => None), 0, 0, 0)
  }

  function Put<J>(mode: Mode, q: Ring<J>, job: J): Outcome<J> {
    var n := |q.slots|;
    var (ok, wrapped) := CheckWriteTable(q.read, q.write, q.count, n);
    if !ok then Refused
    else
      var w := if mode.AsTabled? then wrapped else q.write;
      if w >= n then Overrun
      else
        var next := if mode.AsTabled? then NextWriteTable(q.read, w, q.count, n)
                    else NextWriteWritten(q.read, w, q.count, n);
        Done(Ring(q.slots[w := Some(job)], q.read, next, q.count + 1), w)
  }

  function Take<J>(mode: Mode, q: Ring<J>): Outcome<J> {
    var n := |q.slots|;
    var (ok, wrapped) := CheckReadTable(q.read, q.write, q.count, n);
    if q.count == 0 || !ok then Refused
    else
      var r := if mode.AsTabled? then wrapped else q.read;
      if r >= n then Overrun
      else Done(Ring(q.slots, NextReadTable(r, q.write, q.count, n), q.write, q.count - 1), r)
  }

  // ------------------------------------------------------------ invariant

  /** The slot an index stands for. */
  function Effective(i: nat, n: nat): nat { if i == n then 0 else i }

  /** The indices and the count describe one run of consecutive slots. */
  predicate Indexed(r: nat, w: nat, c: nat, n: nat) {
    && n > 0 && r <= n && w <= n
    && (r < w ==> c == w - r)
    && (r > w ==> c == n - r + w)
    && (r == w ==> c == 0 || c == n)
  }

  /** The jobs in the ring, in the order in which they will be taken. */
  function Contents<J>(q: Ring<J>): seq<Option<J>>
    requires |q.slots| > 0
  {
    seq(q.count, (i: nat) => q.slots[(Effective(q.read, |q.slots|) + i) % |q.slots|])
  }

  /** After `|accepted|` jobs went in and `taken` came out: job k lives in slot
      k modulo the size, and every slot still holds the last job put there. */
  ghost predicate Good<J>(q: Ring<J>, accepted: seq<J>, taken: nat) {
    var n := |q.slots|;
    && Indexed(q.read, q.write, q.count, n)
    && taken + q.count == |accepted|
    && Effective(q.read, n) == taken % n
    && Effective(q.write, n) == |accepted| % n
    && forall k: nat {:trigger accepted[k]} :: k < |accepted| <= k + n ==> q.slots[k % n] == Some(accepted[k])
  }

  /** Both indices stand at the end mark: nothing moves any more. */
  predicate Dead<J>(q: Ring<J>) { q.read == |q.slots| == q.write }

  // ----------------------------------------------------- modular arithmetic

  lemma ModStep(k: nat, n: nat)
    requires n > 0
    ensures (k + 1) % n == if k % n + 1 == n then 0 else k % n + 1
  {
    var q, r := k / n, k % n;
    assert k == q * n + r;
    if r + 1 == n {
      assert (q + 1) * n == q * n + n;
      ModOfSum(q + 1, 0, n);
    } else {
      ModOfSum(q, r + 1, n);
    }
  }

  lemma MulMono(a: int, b: int, n: nat)
    requires a <= b
    ensures a * n <= b * n
  {
  }

  /** Quotient and remainder are unique. */
  lemma DivUnique(q: int, r: nat, d: int, s: nat, n: nat)
    requires r < n && s < n && q * n + r == d * n + s
    ensures q == d && r == s
  {
    if q < d {
      MulMono(q + 1, d, n);
    } else if d < q {
      MulMono(d + 1, q, n);
    }
  }

  lemma ModOfSum(q: nat, r: nat, n: nat)
    requires r < n
    ensures (q * n + r) % n == r
  {
    var m := q * n + r;
    DivUnique(q, r, m / n, m % n, n);
  }

  lemma ModApart(k: nat, m: nat, n: nat)
    requires n > 0 && k < m < k + n
    ensures k % n != m % n
  {
    var d := m - k;
    if k % n == m % n {
      DivUnique(m / n - k / n, 0, 0, d, n);
    }
  }

  lemma ModPlus(k: nat, i: nat, n: nat)
    requires n > 0
    ensures (k % n + i) % n == (k + i) % n
  {
    var q, r := k / n, k % n;
    var q2, r2 := (r + i) / n, (r + i) % n;
    assert k + i == (q + q2) * n + r2;
    ModOfSum(q + q2, r2, n);
  }

  // ------------------------------------------------------------- theorems

  lemma StartGood<J>(n: nat)
    requires n > 0
    ensures Good<J>(Start(n), [], 0)
    ensures !Dead<J>(Start(n))
  {
  }

  /** The occupied slots are the accepted jobs that were not taken, in order. */
  lemma ContentsAreQueued<J>(q: Ring<J>, accepted: seq<J>, taken: nat)
    requires Good(q, accepted, taken)
    ensures |Contents(q)| == |accepted| - taken
    ensures forall i: nat :: i < q.count ==> Contents(q)[i] == Some(accepted[taken + i])
  {
    var n := |q.slots|;
    forall i: nat | i < q.count
      ensures Contents(q)[i] == Some(accepted[taken + i])
    {
      ModPlus(taken, i, n);
      assert q.slots[(taken + i) % n] == Some(accepted[taken + i]);
    }
  }

  /** Storing keeps the order, and is refused exactly when the ring is full or dead. */
  lemma PutKeepsOrder<J>(q: Ring<J>, job: J, accepted: seq<J>, taken: nat)
    requires Good(q, accepted, taken)
    ensures var n, o := |q.slots|, Put(AsTabled, q, job);
      && (o.Refused? <==> q.count == n || Dead(q))
      && !o.Overrun?
      && (o.Done? ==> Good(o.ring, accepted + [job], taken) && o.slot == |accepted| % n && |o.ring.slots| == n)
  {
    var n, o := |q.slots|, Put(AsTabled, q, job);
    if o.Done? {
      ModStep(|accepted|, n);
      SlotsAfterPut(q.slots, accepted, job, n);
    }
  }

  lemma SlotsAfterPut<J>(slots: seq<Option<J>>, accepted: seq<J>, job: J, n: nat)
    requires |slots| == n > 0
    requires forall k: nat {:trigger accepted[k]} :: k < |accepted| <= k + n ==> slots[k % n] == Some(accepted[k])
    ensures var s, a := slots[|accepted| % n := Some(job)], accepted + [job];
      forall k: nat {:trigger a[k]} :: k < |a| <= k + n ==> s[k % n] == Some(a[k])
  {
    var s, a := slots[|accepted| % n := Some(job)], accepted + [job];
    forall k: nat {:trigger a[k]} | k < |a| <= k + n
      ensures s[k % n] == Some(a[k])
    {
      if k < |accepted| {
        assert a[k] == accepted[k];
        ModApart(k, |accepted|, n);
      }
    }
  }

  /** Taking yields the oldest queued job, and is refused exactly when the ring is empty or dead. */
  lemma TakeKeepsOrder<J>(q: Ring<J>, accepted: seq<J>, taken: nat)
    requires Good(q, accepted, taken)
    ensures var n, o := |q.slots|, Take(AsTabled, q);
      && (o.Refused? <==> q.count == 0 || Dead(q))
      && !o.Overrun?
      && (o.Done? ==> && Good(o.ring, accepted, taken + 1) && o.slot == taken % n
                      && q.slots[o.slot] == Some(accepted[taken]) && |o.ring.slots| == n)
  {
    var n, o := |q.slots|, Take(AsTabled, q);
    if o.Done? {
      ModStep(taken, n);
      var k := taken;
      assert accepted[k] == accepted[taken];
    }
  }

  /** The code and the documented tables store the same next write index
      exactly when the write index does not wrap. */
  lemma WrittenMeetsTable(r: nat, w: nat, c: nat, n: nat)
    requires r <= n && w <= n
    ensures NextWriteWritten(r, w, c, n) == NextWriteTable(r, w, c, n) <==> !WriteWraps(r, w, c, n)
  {
  }

  /** From a good ring, an accepted store by the code leaves a good ring
      exactly when the write index does not wrap. */
  lemma WrittenPutExact<J>(q: Ring<J>, job: J, accepted: seq<J>, taken: nat)
    requires Good(q, accepted, taken)
    requires !Put(AsWritten, q, job).Refused?
    ensures var o := Put(AsWritten, q, job);
      (o.Done? && Good(o.ring, accepted + [job], taken))
      <==> !WriteWraps(q.read, q.write, q.count, |q.slots|)
  {
    PutKeepsOrder(q, job, accepted, taken);
    ModStep(|accepted|, |q.slots|);
  }

  /** From a good ring, an accepted take by the code is right exactly when the
      read index is not at the end mark. */
  lemma WrittenTakeExact<J>(q: Ring<J>, accepted: seq<J>, taken: nat)
    requires Good(q, accepted, taken)
    requires !Take(AsWritten, q).Refused?
    ensures var o := Take(AsWritten, q);
      (o.Done? && Good(o.ring, accepted, taken + 1)) <==> q.read < |q.slots|
  {
    TakeKeepsOrder(q, accepted, taken);
  }
}
