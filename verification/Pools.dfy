/** The page allocator's pool: allocation scans and sets the used map bit by bit
    under the pool's lock, while frees clear bits one by one without it.
    A step tests, sets or clears one bit; steps of the one allocator that has the
    lock and of any number of frees interleave freely. */
module Pools {
  type ClientId = nat
  type FreeId = nat

  /** Where the lock holder is in bitmap_scan_and_flip: bits i .. i + j have been
      seen clear, or bits i .. i + k have been set. */
  datatype Allocator =
    | Idle
    | Scanning(cnt: nat, i: nat, j: nat)
    | Setting(cnt: nat, i: nat, k: nat)

  /** A palloc_free_multiple that has cleared bits i .. i + k. */
  datatype Free = Free(i: nat, cnt: nat, k: nat)

  /** The used map, the lock holder, the frees under way and the pages each
      allocation still owns. */
  datatype Pool = Pool(
    used: seq<bool>,
    alloc: Allocator,
    frees: map<FreeId, Free>,
    live: map<ClientId, set<nat>>)

  datatype Step =
    | Begin(cnt: nat)
    | Probe
    | Mark(client: ClientId)
    | BeginFree(client: ClientId, i: nat, cnt: nat, f: FreeId)
    | Clear(f: FreeId)

  predicate Within(q: nat, i: nat, cnt: nat) { i <= q < i + cnt }

  /** The cnt pages from i on. */
  function Pages(i: nat, cnt: nat): (r: set<nat>)
    ensures forall q: nat :: q in r <==> Within(q, i, cnt)
  {
    set q: nat | 0 <= q < i + cnt && Within(q, i, cnt)
  }

  predicate Enabled(p: Pool, step: Step) {
    match step
    case Begin(cnt) => p.alloc.Idle? && cnt > 0
    case Probe => p.alloc.Scanning?
    case Mark(client) => p.alloc.Setting? && p.alloc.i + p.alloc.cnt <= |p.used| && client !in p.live
    case BeginFree(client, i, cnt, f) =>
      client in p.live && Pages(i, cnt) <= p.live[client] && cnt > 0 && f !in p.frees
    case Clear(f) => f in p.frees && p.frees[f].i + p.frees[f].k < |p.used|
  }

  function Apply(p: Pool, step: Step): Pool
    requires Enabled(p, step)
  {
    match step
    case Begin(cnt) => p.(alloc := if cnt <= |p.used| then Scanning(cnt, 0, 0) else Idle)
    case Probe =>
      var Scanning(cnt, i, j) := p.alloc;
      if i + cnt > |p.used| then p.(alloc := Idle)
      else if j >= cnt then p.(alloc := Setting(cnt, i, 0))
      else if p.used[i + j] then p.(alloc := Scanning(cnt, i + 1, 0))
      else p.(alloc := Scanning(cnt, i, j + 1))
    case Mark(client) =>
      var Setting(cnt, i, k) := p.alloc;
      if k < cnt then p.(used := p.used[i + k := true], alloc := Setting(cnt, i, k + 1))
      else p.(alloc := Idle, live := p.live[client := Pages(i, cnt)])
    case BeginFree(client, i, cnt, f) =>
      p.(live := p.live[client := p.live[client] - Pages(i, cnt)], frees := p.frees[f := Free(i, cnt, 0)])
    case Clear(f) =>
      var Free(i, cnt, k) := p.frees[f];
      p.(used := p.used[i + k := false],
         frees := if k + 1 < cnt then p.frees[f := Free(i, cnt, k + 1)] else p.frees - {f})
  }

  predicate Init(p: Pool) {
    && (forall i :: 0 <= i < |p.used| ==> !p.used[i])
    && p.alloc == Idle && p.frees == map[] && p.live == map[]
  }

  ghost predicate StepAt(trace: seq<Pool>, steps: seq<Step>, i: nat)
    requires i < |steps| && |trace| == |steps| + 1
  {
    Enabled(trace[i], steps[i]) && trace[i + 1] == Apply(trace[i], steps[i])
  }

  ghost predicate Run(trace: seq<Pool>, steps: seq<Step>) {
    && |trace| == |steps| + 1
    && Init(trace[0])
    && forall i :: 0 <= i < |steps| ==> StepAt(trace, steps, i)
  }

  // ---------------------------------------------------------------- invariant

  /** Everyone who can hold a page. */
  datatype Holder = Client(c: ClientId) | Freer(f: FreeId) | Setter

  /** A client holds its allocation, a free what it has not yet cleared, the
      allocator what it has already set. */
  predicate Holds(p: Pool, h: Holder, q: nat) {
    match h
    case Client(c) => c in p.live && q in p.live[c]
    case Freer(f) => f in p.frees && p.frees[f].i + p.frees[f].k <= q < p.frees[f].i + p.frees[f].cnt
    case Setter => p.alloc.Setting? && p.alloc.i <= q < p.alloc.i + p.alloc.k
  }

  ghost predicate Disjoint(p: Pool) {
    forall g, h, q: nat :: Holds(p, g, q) && Holds(p, h, q) ==> g == h
  }

  /** A page is marked used exactly when somebody holds it. */
  ghost predicate Exact(p: Pool) {
    && (forall h, q: nat :: Holds(p, h, q) ==> q < |p.used| && p.used[q])
    && (forall q: nat :: q < |p.used| && p.used[q] ==> exists h :: Holds(p, h, q))
  }

  /** What the lock holder has seen clear stays clear until it sets it. */
  ghost predicate SeenClear(p: Pool) {
    match p.alloc
    case Idle => true
    case Scanning(cnt, i, j) =>
      cnt <= |p.used| && j <= cnt && (j > 0 ==> i + cnt <= |p.used|) &&
      forall q: nat :: i <= q < i + j && q < |p.used| ==> !p.used[q]
    case Setting(cnt, i, k) =>
      k <= cnt && i + cnt <= |p.used| && forall q: nat :: i + k <= q < i + cnt ==> !p.used[q]
  }

  ghost predicate Inv(p: Pool) {
    && Disjoint(p) && Exact(p) && SeenClear(p)
    && forall f <- p.frees :: p.frees[f].k < p.frees[f].cnt
  }

  // The step leaves every page with the holder it had.
  lemma SameHolders(p: Pool, p1: Pool)
    requires Inv(p) && p1.used == p.used
    requires forall h, q: nat :: Holds(p1, h, q) <==> Holds(p, h, q)
    ensures Disjoint(p1) && Exact(p1)
  {
    forall q: nat | q < |p1.used| && p1.used[q]
      ensures exists h :: Holds(p1, h, q)
    {
      var h :| Holds(p, h, q);
      assert Holds(p1, h, q);
    }
  }

  lemma BeginKeepsInv(p: Pool, cnt: nat)
    requires Inv(p) && Enabled(p, Begin(cnt))
    ensures Inv(Apply(p, Begin(cnt)))
  {
    SameHolders(p, Apply(p, Begin(cnt)));
  }

  lemma ProbeKeepsInv(p: Pool)
    requires Inv(p) && Enabled(p, Probe)
    ensures Inv(Apply(p, Probe))
  {
    SameHolders(p, Apply(p, Probe));
  }

  lemma MarkBitKeepsInv(p: Pool, client: ClientId)
    requires Inv(p) && Enabled(p, Mark(client)) && p.alloc.k < p.alloc.cnt
    ensures Inv(Apply(p, Mark(client)))
  {
    var p1 := Apply(p, Mark(client));
    var q0 := p.alloc.i + p.alloc.k;
    assert !p.used[q0];
    assert forall h, q: nat :: Holds(p1, h, q) <==> Holds(p, h, q) || (h.Setter? && q == q0);
    forall q: nat | q < |p1.used| && p1.used[q]
      ensures exists h :: Holds(p1, h, q)
    {
      if q == q0 {
        assert Holds(p1, Setter, q);
      } else {
        var h :| Holds(p, h, q);
        assert Holds(p1, h, q);
      }
    }
  }

  lemma MarkDoneKeepsInv(p: Pool, client: ClientId)
    requires Inv(p) && Enabled(p, Mark(client)) && p.alloc.k >= p.alloc.cnt
    ensures Inv(Apply(p, Mark(client)))
  {
    var p1 := Apply(p, Mark(client));
    assert forall q: nat :: Holds(p1, Client(client), q) <==> Holds(p, Setter, q);
    assert forall h, q: nat :: h != Client(client) ==> (Holds(p1, h, q) <==> Holds(p, h, q) && !h.Setter?);
    forall q: nat | q < |p1.used| && p1.used[q]
      ensures exists h :: Holds(p1, h, q)
    {
      var h :| Holds(p, h, q);
      assert Holds(p1, if h.Setter? then Client(client) else h, q);
    }
  }

  lemma BeginFreeKeepsInv(p: Pool, client: ClientId, i: nat, cnt: nat, f: FreeId)
    requires Inv(p) && Enabled(p, BeginFree(client, i, cnt, f))
    ensures Inv(Apply(p, BeginFree(client, i, cnt, f)))
  {
    var p1 := Apply(p, BeginFree(client, i, cnt, f));
    assert forall q: nat :: Holds(p1, Freer(f), q) <==> Within(q, i, cnt);
    assert forall q: nat :: Within(q, i, cnt) ==> Holds(p, Client(client), q);
    assert forall h, q: nat :: h != Freer(f) ==>
      (Holds(p1, h, q) <==> Holds(p, h, q) && !(h == Client(client) && Within(q, i, cnt)));
    forall q: nat | q < |p1.used| && p1.used[q]
      ensures exists h :: Holds(p1, h, q)
    {
      var h :| Holds(p, h, q);
      assert Holds(p1, if Within(q, i, cnt) then Freer(f) else h, q);
    }
  }

  lemma ClearKeepsInv(p: Pool, f: FreeId)
    requires Inv(p) && Enabled(p, Clear(f))
    ensures Inv(Apply(p, Clear(f)))
  {
    var p1 := Apply(p, Clear(f));
    var q0 := p.frees[f].i + p.frees[f].k;
    assert Holds(p, Freer(f), q0);
    forall h, q: nat
      ensures Holds(p1, h, q) <==> Holds(p, h, q) && q != q0
    {
      if h != Freer(f) {
        assert Holds(p1, h, q) <==> Holds(p, h, q);
        assert !Holds(p, h, q0);
      }
    }
    forall q: nat | q < |p1.used| && p1.used[q]
      ensures exists h :: Holds(p1, h, q)
    {
      var h :| Holds(p, h, q);
      assert Holds(p1, h, q);
    }
  }

  lemma StepKeepsInv(p: Pool, step: Step)
    requires Inv(p) && Enabled(p, step)
    ensures Inv(Apply(p, step))
  {
    match step
    case Begin(cnt) => BeginKeepsInv(p, cnt);
    case Probe => ProbeKeepsInv(p);
    case Mark(client) =>
      if p.alloc.k < p.alloc.cnt { MarkBitKeepsInv(p, client); } else { MarkDoneKeepsInv(p, client); }
    case BeginFree(client, i, cnt, f) => BeginFreeKeepsInv(p, client, i, cnt, f);
    case Clear(f) => ClearKeepsInv(p, f);
  }

  // -------------------------------------------------------- theorems over runs

  lemma {:induction false} RunKeepsInv(trace: seq<Pool>, steps: seq<Step>, n: nat)
    requires Run(trace, steps) && n < |trace|
    ensures Inv(trace[n])
  {
    if n > 0 {
      RunKeepsInv(trace, steps, n - 1);
      assert StepAt(trace, steps, n - 1);
      StepKeepsInv(trace[n - 1], steps[n - 1]);
    }
  }

  /** No page ever has two holders, and it is marked exactly while it has one. */
  lemma NoPageHasTwoOwners(trace: seq<Pool>, steps: seq<Step>, n: nat, q: nat, g: Holder, h: Holder)
    requires Run(trace, steps) && n < |trace|
    ensures Holds(trace[n], g, q) && Holds(trace[n], h, q) ==> g == h
    ensures q < |trace[n].used| && trace[n].used[q] <==> exists k :: Holds(trace[n], k, q)
  {
    RunKeepsInv(trace, steps, n);
  }

  /** The assertion in palloc_free_multiple holds in every run: a free finds all
      its bits set. */
  lemma FreedPagesAreUsed(trace: seq<Pool>, steps: seq<Step>, n: nat, q: nat)
    requires Run(trace, steps) && n < |steps| && steps[n].BeginFree? && Within(q, steps[n].i, steps[n].cnt)
    ensures q < |trace[n].used| && trace[n].used[q]
  {
    RunKeepsInv(trace, steps, n);
    assert StepAt(trace, steps, n);
    assert Holds(trace[n], Client(steps[n].client), q);
  }

  /** Although frees change bits behind its back, the allocator never sets a bit
      that is already set: what it saw clear is still clear. */
  lemma SetterFindsBitsClear(trace: seq<Pool>, steps: seq<Step>, n: nat, q: nat)
    requires Run(trace, steps) && n < |trace| && trace[n].alloc.Setting?
    requires trace[n].alloc.i + trace[n].alloc.k <= q < trace[n].alloc.i + trace[n].alloc.cnt
    ensures q < |trace[n].used| && !trace[n].used[q]
  {
    RunKeepsInv(trace, steps, n);
  }

  /** A completed allocation hands out pages that no client had, and takes none
      from the others. */
  lemma AllocationIsFresh(trace: seq<Pool>, steps: seq<Step>, n: nat, c: ClientId)
    requires Run(trace, steps) && n < |steps| && steps[n].Mark? && trace[n].alloc.Setting?
    requires trace[n].alloc.k == trace[n].alloc.cnt && c in trace[n].live
    ensures steps[n].client in trace[n + 1].live
    ensures trace[n + 1].live[steps[n].client] == Pages(trace[n].alloc.i, trace[n].alloc.cnt)
    ensures c in trace[n + 1].live && trace[n + 1].live[c] == trace[n].live[c]
    ensures trace[n].live[c] !! trace[n + 1].live[steps[n].client]
  {
    RunKeepsInv(trace, steps, n);
    assert StepAt(trace, steps, n);
    forall q: nat | q in trace[n].live[c]
      ensures q !in trace[n + 1].live[steps[n].client]
    {
      assert Holds(trace[n], Client(c), q);
      assert !Holds(trace[n], Setter, q);
    }
  }

  // --------------------------------------------------- whole requests, over runs

  lemma SameSize(p: Pool, step: Step)
    requires Enabled(p, step) && Inv(p)
    ensures |Apply(p, step).used| == |p.used|
  {
  }

  /** Some page of the n from b on was in use at a moment between i and j. */
  ghost predicate TakenMeanwhile(trace: seq<Pool>, i: nat, j: nat, b: nat, n: nat)
    requires j < |trace|
  {
    exists m: nat, q: nat :: i <= m <= j && b <= q < b + n && q < |trace[m].used| && trace[m].used[q]
  }

  /** The request is under way for n pages, and every place it has passed by had a page in
      use when it looked. */
  ghost predicate Serving(trace: seq<Pool>, i: nat, k: nat, n: nat)
    requires k < |trace|
  {
    match trace[k].alloc
    case Idle => false
    case Scanning(cnt, a, _) =>
      cnt == n && n <= |trace[k].used| && forall b: nat :: b < a ==> TakenMeanwhile(trace, i, k, b, n)
    case Setting(cnt, a, _) =>
      cnt == n && a + n <= |trace[k].used| && forall b: nat :: b < a ==> TakenMeanwhile(trace, i, k, b, n)
  }

  lemma TakenOnward(trace: seq<Pool>, i: nat, j: nat, b: nat, n: nat)
    requires j + 1 < |trace| && TakenMeanwhile(trace, i, j, b, n)
    ensures TakenMeanwhile(trace, i, j + 1, b, n)
  {
    var m: nat, q: nat :| i <= m <= j && b <= q < b + n && q < |trace[m].used| && trace[m].used[q];
    assert i <= m <= j + 1 && trace[m].used[q];
  }

  lemma {:induction false} RequestGoesOn(trace: seq<Pool>, steps: seq<Step>, i: nat, k: nat, n: nat)
    requires Run(trace, steps) && i < k < |trace| && steps[i] == Begin(n)
    requires forall m :: i < m <= k ==> !trace[m].alloc.Idle?
    ensures Serving(trace, i, k, n)
    decreases k
  {
    assert StepAt(trace, steps, k - 1);
    if k > i + 1 {
      RequestGoesOn(trace, steps, i, k - 1, n);
      RunKeepsInv(trace, steps, k - 1);
      SameSize(trace[k - 1], steps[k - 1]);
      hide Inv;
      forall b: nat | TakenMeanwhile(trace, i, k - 1, b, n) ensures TakenMeanwhile(trace, i, k, b, n) {
        TakenOnward(trace, i, k - 1, b, n);
      }
      var p := trace[k - 1];
      if steps[k - 1].Probe? && p.alloc.i + p.alloc.cnt <= |p.used| && p.alloc.j < p.alloc.cnt {
        if p.used[p.alloc.i + p.alloc.j] {
          assert TakenMeanwhile(trace, i, k, p.alloc.i, n);
        }
      }
    }
  }

  /** A request for n pages that ends with its last mark hands out n pages in a row, at the
      first place where all were free when it looked; nobody else had any of them. */
  lemma RequestServed(trace: seq<Pool>, steps: seq<Step>, i: nat, j: nat, n: nat) returns (b: nat)
    requires Run(trace, steps) && i < j < |steps| && steps[i] == Begin(n)
    requires forall m :: i < m <= j ==> !trace[m].alloc.Idle?
    requires steps[j].Mark? && trace[j + 1].alloc.Idle?
    ensures b + n <= |trace[j + 1].used|
    ensures steps[j].client in trace[j + 1].live && trace[j + 1].live[steps[j].client] == Pages(b, n)
    ensures forall a: nat :: a < b ==> TakenMeanwhile(trace, i, j, a, n)
    ensures forall c :: c in trace[j].live ==>
      c in trace[j + 1].live && trace[j + 1].live[c] == trace[j].live[c] && trace[j].live[c] !! Pages(b, n)
  {
    RequestGoesOn(trace, steps, i, j, n);
    RunKeepsInv(trace, steps, j);
    assert StepAt(trace, steps, j);
    b := trace[j].alloc.i;
    forall c | c in trace[j].live
      ensures c in trace[j + 1].live && trace[j + 1].live[c] == trace[j].live[c] && trace[j].live[c] !! Pages(b, n)
    {
      AllocationIsFresh(trace, steps, j, c);
    }
  }

  /** A request that ends without that asked for more pages than there are, or met a page in
      use at every place. */
  lemma RequestFails(trace: seq<Pool>, steps: seq<Step>, i: nat, j: nat, n: nat)
    requires Run(trace, steps) && i <= j < |steps| && steps[i] == Begin(n)
    requires forall m :: i < m <= j ==> !trace[m].alloc.Idle?
    requires !steps[j].Mark? && trace[j + 1].alloc.Idle?
    ensures n > |trace[j].used| || forall b: nat :: b + n <= |trace[j].used| ==> TakenMeanwhile(trace, i, j, b, n)
  {
    assert StepAt(trace, steps, j);
    if i < j {
      RequestGoesOn(trace, steps, i, j, n);
    }
  }

  /** Page q was in use and free f cleared its bit at a moment between i and j. */
  ghost predicate ClearedMeanwhile(trace: seq<Pool>, steps: seq<Step>, i: nat, j: nat, f: FreeId, q: nat)
    requires j < |trace| == |steps| + 1
  {
    exists m :: i < m < j && steps[m] == Clear(f)
      && q < |trace[m].used| && q < |trace[m + 1].used| && trace[m].used[q] && !trace[m + 1].used[q]
  }

  lemma ClearedOnward(trace: seq<Pool>, steps: seq<Step>, i: nat, j: nat, f: FreeId, q: nat)
    requires j + 1 < |trace| == |steps| + 1 && ClearedMeanwhile(trace, steps, i, j, f, q)
    ensures ClearedMeanwhile(trace, steps, i, j + 1, f, q)
  {
  }

  /** A clear of f's next bit finds it set. */
  lemma ClearFinds(p: Pool, f: FreeId)
    requires Inv(p) && f in p.frees
    ensures p.frees[f].i + p.frees[f].k < |p.used| && p.used[p.frees[f].i + p.frees[f].k]
  {
    assert Holds(p, Freer(f), p.frees[f].i + p.frees[f].k);
  }

  lemma {:induction false} FreeGoesOn(trace: seq<Pool>, steps: seq<Step>, i: nat, k: nat, f: FreeId)
    requires Run(trace, steps) && i < k < |trace| && steps[i].BeginFree? && steps[i].f == f
    requires forall m :: i < m < k ==> f in trace[m].frees
    ensures f in trace[k].frees ==> trace[k].frees[f].i == steps[i].i && trace[k].frees[f].cnt == steps[i].cnt
    ensures
      var done := if f in trace[k].frees then trace[k].frees[f].k else steps[i].cnt;
      forall q: nat :: steps[i].i <= q < steps[i].i + done ==> ClearedMeanwhile(trace, steps, i, k, f, q)
    decreases k
  {
    assert StepAt(trace, steps, k - 1);
    if k > i + 1 {
      FreeGoesOn(trace, steps, i, k - 1, f);
      RunKeepsInv(trace, steps, k - 1);
      ClearFinds(trace[k - 1], f);
      hide Inv;
      forall q: nat | ClearedMeanwhile(trace, steps, i, k - 1, f, q) ensures ClearedMeanwhile(trace, steps, i, k, f, q) {
        ClearedOnward(trace, steps, i, k - 1, f, q);
      }
      if steps[k - 1] == Clear(f) {
        assert ClearedMeanwhile(trace, steps, i, k, f, trace[k - 1].frees[f].i + trace[k - 1].frees[f].k);
      }
    }
  }

  /** A free takes exactly its pages from the client at once, and when it is over it has
      cleared every one of them, each found in use. */
  lemma FreeReturns(trace: seq<Pool>, steps: seq<Step>, i: nat, j: nat, c: ClientId)
    requires Run(trace, steps) && i < j < |trace| && steps[i].BeginFree? && c in trace[i].live
    requires (forall m :: i < m < j ==> steps[i].f in trace[m].frees) && steps[i].f !in trace[j].frees
    ensures c in trace[i + 1].live && steps[i].client in trace[i].live
    ensures trace[i + 1].live[c] ==
      if c == steps[i].client then trace[i].live[c] - Pages(steps[i].i, steps[i].cnt) else trace[i].live[c]
    ensures forall q: nat :: q in Pages(steps[i].i, steps[i].cnt) ==> ClearedMeanwhile(trace, steps, i, j, steps[i].f, q)
  {
    assert StepAt(trace, steps, i);
    FreeGoesOn(trace, steps, i, j, steps[i].f);
  }

  /** Nobody is ever stuck: the allocator and every free have a next step, and an idle
      allocator takes any request. */
  lemma CanGoOn(trace: seq<Pool>, steps: seq<Step>, i: nat, n: nat, c: ClientId, f: FreeId)
    requires Run(trace, steps) && i < |trace| && n > 0 && c !in trace[i].live
    ensures
      match trace[i].alloc
      case Idle => Enabled(trace[i], Begin(n))
      case Scanning(_, _, _) => Enabled(trace[i], Probe)
      case Setting(_, _, _) => Enabled(trace[i], Mark(c))
    ensures f in trace[i].frees ==> Enabled(trace[i], Clear(f))
  {
    RunKeepsInv(trace, steps, i);
    if f in trace[i].frees { ClearFinds(trace[i], f); }
  }
}
