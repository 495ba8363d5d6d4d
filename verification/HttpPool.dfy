/** The pool of HTTP buffer sets under any interleaving of any number of threads.

A thread takes a semaphore token, then claims the first free slot under a lock; it
gives the slot back under the lock and the token after that. Each of these four is one
atomic step. */
module HttpPool {

  datatype Phase =
    | Idle
    | Taken                 // has a token, has not scanned yet
    | Holding(slot: nat)
    | Overflow              // has a token and found no free slot
    | Cleared               // has cleared its slot, has not given the token back yet

  datatype Pool = Pool(tokens: nat, slots: seq<bool>, peak: nat)

  datatype System = System(pool: Pool, threads: map<nat, Phase>)

  // ----- the locked sections ---------------------------------------------

  /** The first free slot from `i` on, or the number of slots. */
  function FirstFree(slots: seq<bool>, i: nat): (k: nat)
    requires i <= |slots|
    ensures i <= k <= |slots|
    ensures k < |slots| ==> !slots[k]
    ensures forall j :: i <= j < k ==> slots[j]
    decreases |slots| - i
  {
    if i < |slots| && slots[i] then FirstFree(slots, i + 1) else i
  }

  function Max(a: nat, b: nat): nat { if a < b then b else a }

  /** The scan: the slots it passed, and the one it claimed, count as in use. */
  function ScanPool(p: Pool): Pool {
    var k := FirstFree(p.slots, 0);
    if k < |p.slots| then p.(slots := p.slots[k := true], peak := Max(p.peak, k + 1))
    else p.(peak := Max(p.peak, |p.slots|))
  }

  /** Of a pool whose slots are all in use the scan only notes how many there are. */
  lemma FullPoolScan(p: Pool)
    requires forall i :: 0 <= i < |p.slots| ==> p.slots[i]
    ensures ScanPool(p) == p.(peak := if p.peak < |p.slots| then |p.slots| else p.peak)
  {}

  function ClearSlot(p: Pool, slot: nat): Pool {
    if slot < |p.slots| then p.(slots := p.slots[slot := false]) else p
  }

  /** A semaphore never counts past its limit, here the number of slots. */
  function GiveToken(p: Pool): Pool {
    p.(tokens := if p.tokens < |p.slots| then p.tokens + 1 else p.tokens)
  }

  /** Giving tokens never exceeds the limit. */
  lemma TokensStayLimited(p: Pool)
    requires p.tokens <= |p.slots|
    ensures GiveToken(p).tokens == if p.tokens == |p.slots| then p.tokens else p.tokens + 1
  {}

  // ----- steps -----------------------------------------------------------

  datatype Step = Take(t: nat) | Scan(t: nat) | Clear(t: nat) | Give(t: nat)

  function PhaseOf(s: System, t: nat): Phase {
    if t in s.threads then s.threads[t] else Idle
  }

  predicate Enabled(s: System, step: Step) {
    match step
    case Take(t) => PhaseOf(s, t) == Idle && s.pool.tokens > 0
    case Scan(t) => PhaseOf(s, t) == Taken
    case Clear(t) => PhaseOf(s, t).Holding?
    case Give(t) => PhaseOf(s, t) == Cleared || PhaseOf(s, t) == Overflow
  }

  function Apply(s: System, step: Step): System
    requires Enabled(s, step)
  {
    match step
    case Take(t) => System(s.pool.(tokens := s.pool.tokens - 1), s.threads[t := Taken])
    case Scan(t) =>
      var k := FirstFree(s.pool.slots, 0);
      System(ScanPool(s.pool), s.threads[t := if k < |s.pool.slots| then Holding(k) else Overflow])
    case Clear(t) => System(ClearSlot(s.pool, s.threads[t].slot), s.threads[t := Cleared])
    case Give(t) => System(GiveToken(s.pool), s.threads[t := Idle])
  }

  function Start(n: nat): System {
    System(Pool(n, seq(n, _ => false), 0), map[])
  }

  // ----- what every step keeps -------------------------------------------

  /** The threads that are past the semaphore. */
  function Active(s: System): set<nat> {
    set t | t in s.threads && s.threads[t] != Idle
  }

  predicate Held(s: System, i: nat) {
    exists t :: t in s.threads && s.threads[t] == Holding(i)
  }

  predicate Inv(s: System) {
    && s.pool.tokens + |Active(s)| == |s.pool.slots|
    && (forall t :: t in s.threads && s.threads[t].Holding? ==>
          s.threads[t].slot < |s.pool.slots| && s.pool.slots[s.threads[t].slot])
    && (forall t, u :: t in s.threads && u in s.threads && s.threads[t].Holding? ==>
          s.threads[t] == s.threads[u] ==> t == u)
    && (forall i :: 0 <= i < |s.pool.slots| && s.pool.slots[i] ==> Held(s, i))
    && (forall t :: t in s.threads ==> s.threads[t] != Overflow)
    && (forall i :: 0 <= i < |s.pool.slots| && s.pool.slots[i] ==> i < s.pool.peak)
  }

  /** The threads that hold one of the first `n` slots. */
  function Holders(s: System, n: nat): set<nat> {
    set t | t in s.threads && s.threads[t].Holding? && s.threads[t].slot < n
  }

  lemma {:induction false} HoldersOfUsedSlots(s: System, n: nat)
    requires Inv(s) && n <= |s.pool.slots| && forall i :: 0 <= i < n ==> s.pool.slots[i]
    ensures |Holders(s, n)| == n
  {
    if n == 0 {
      assert Holders(s, 0) == {};
    } else {
      HoldersOfUsedSlots(s, n - 1);
      assert Held(s, n - 1);
      var t :| t in s.threads && s.threads[t] == Holding(n - 1);
      OneMoreHolder(s, n, t);
    }
  }

  lemma OneMoreHolder(s: System, n: nat, t: nat)
    requires Inv(s) && 0 < n && t in s.threads && s.threads[t] == Holding(n - 1)
    ensures |Holders(s, n)| == |Holders(s, n - 1)| + 1
  {
    var before, after := Holders(s, n - 1), Holders(s, n);
    forall u | u in after
      ensures u in before + {t}
    {
      if s.threads[u].slot == n - 1 { assert s.threads[u] == s.threads[t]; }
    }
    assert after == before + {t} && t !in before;
  }

  /** A thread that got a token always finds a free slot: the fallback is unreachable. */
  lemma TokenMeansFreeSlot(s: System, t: nat)
    requires Inv(s) && PhaseOf(s, t) == Taken
    ensures FirstFree(s.pool.slots, 0) < |s.pool.slots|
  {
    var n := |s.pool.slots|;
    if FirstFree(s.pool.slots, 0) == n {
      HoldersOfUsedSlots(s, n);
      assert Holders(s, n) + {t} <= Active(s) && t !in Holders(s, n);
      Larger(Holders(s, n) + {t}, Active(s));
    }
  }

  lemma {:induction false} Larger(a: set<nat>, b: set<nat>)
    requires a <= b
    ensures |a| <= |b|
  {
    if a != {} {
      var x :| x in a;
      Larger(a - {x}, b - {x});
    }
  }

  lemma ActiveAfter(s: System, t: nat, phase: Phase, pool: Pool)
    ensures var r := System(pool, s.threads[t := phase]);
            Active(r) == if phase == Idle then Active(s) - {t} else Active(s) + {t}
  {}

  lemma StepKeepsInv(s: System, step: Step)
    requires Inv(s) && Enabled(s, step)
    ensures Inv(Apply(s, step)) && |Apply(s, step).pool.slots| == |s.pool.slots|
  {
    match step {
      case Take(t) => TakeKeepsInv(s, t);
      case Scan(t) => ScanKeepsInv(s, t);
      case Clear(t) => ClearKeepsInv(s, t);
      case Give(t) => GiveKeepsInv(s, t);
    }
  }

  /** A slot stays held when another thread, or the holder of another slot, moves on. */
  lemma OthersStayHolding(s: System, r: System, t: nat, i: nat)
    requires r.threads == s.threads[t := PhaseOf(r, t)] && PhaseOf(s, t) != Holding(i) && Held(s, i)
    ensures Held(r, i)
  {
    var u :| u in s.threads && s.threads[u] == Holding(i);
    assert u in r.threads && r.threads[u] == Holding(i);
  }

  lemma TakeKeepsInv(s: System, t: nat)
    requires Inv(s) && Enabled(s, Take(t))
    ensures Inv(Apply(s, Take(t)))
  {
    var r := Apply(s, Take(t));
    ActiveAfter(s, t, Taken, r.pool);
    forall i | 0 <= i < |r.pool.slots| && r.pool.slots[i]
      ensures Held(r, i)
    {
      OthersStayHolding(s, r, t, i);
    }
  }

  lemma ScanKeepsInv(s: System, t: nat)
    requires Inv(s) && Enabled(s, Scan(t))
    ensures Inv(Apply(s, Scan(t)))
  {
    TokenMeansFreeSlot(s, t);
    var k := FirstFree(s.pool.slots, 0);
    var r := Apply(s, Scan(t));
    ActiveAfter(s, t, Holding(k), r.pool);
    assert Active(s) + {t} == Active(s);
    forall i | 0 <= i < |r.pool.slots| && r.pool.slots[i]
      ensures Held(r, i)
    {
      if i == k {
        assert t in r.threads && r.threads[t] == Holding(i);
      } else {
        OthersStayHolding(s, r, t, i);
      }
    }
  }

  lemma ClearKeepsInv(s: System, t: nat)
    requires Inv(s) && Enabled(s, Clear(t))
    ensures Inv(Apply(s, Clear(t)))
  {
    var r := Apply(s, Clear(t));
    ActiveAfter(s, t, Cleared, r.pool);
    assert Active(s) + {t} == Active(s);
    forall i | 0 <= i < |r.pool.slots| && r.pool.slots[i]
      ensures Held(r, i)
    {
      OthersStayHolding(s, r, t, i);
    }
  }

  lemma GiveKeepsInv(s: System, t: nat)
    requires Inv(s) && Enabled(s, Give(t))
    ensures Inv(Apply(s, Give(t)))
  {
    var r := Apply(s, Give(t));
    ActiveAfter(s, t, Idle, r.pool);
    assert t in Active(s);
    assert |Active(s) - {t}| == |Active(s)| - 1;
    forall i | 0 <= i < |r.pool.slots| && r.pool.slots[i]
      ensures Held(r, i)
    {
      OthersStayHolding(s, r, t, i);
    }
  }

  // ----- runs ------------------------------------------------------------

  predicate CanRun(s: System, steps: seq<Step>)
    decreases |steps|
  {
    steps == [] || (Enabled(s, steps[0]) && CanRun(Apply(s, steps[0]), steps[1..]))
  }

  function Run(s: System, steps: seq<Step>): System
    requires CanRun(s, steps)
    decreases |steps|
  {
    if steps == [] then s else Run(Apply(s, steps[0]), steps[1..])
  }

  lemma {:induction false} RunKeepsInv(s: System, steps: seq<Step>)
    requires Inv(s) && CanRun(s, steps)
    ensures Inv(Run(s, steps)) && |Run(s, steps).pool.slots| == |s.pool.slots|
    decreases |steps|
  {
    if steps != [] {
      StepKeepsInv(s, steps[0]);
      RunKeepsInv(Apply(s, steps[0]), steps[1..]);
    }
  }

  /** Over every run: no two threads hold the same slot, tokens and threads past the
      semaphore make up the number of slots, no thread ever finds the pool full. */
  lemma RunIsSafe(n: nat, steps: seq<Step>)
    requires CanRun(Start(n), steps)
    ensures var s := Run(Start(n), steps);
            && (forall t, u :: t != u && PhaseOf(s, t).Holding? && PhaseOf(s, u).Holding? ==>
                  PhaseOf(s, t).slot != PhaseOf(s, u).slot)
            && s.pool.tokens + |Active(s)| == n
            && (forall t :: PhaseOf(s, t) == Taken ==> FirstFree(s.pool.slots, 0) < n)
            && (forall t :: PhaseOf(s, t) != Overflow)
  {
    assert Active(Start(n)) == {};
    RunKeepsInv(Start(n), steps);
    var s := Run(Start(n), steps);
    forall t | PhaseOf(s, t) == Taken
      ensures FirstFree(s.pool.slots, 0) < n
    {
      TokenMeansFreeSlot(s, t);
    }
  }

  // ----- the high-water mark ---------------------------------------------

  /** The number of slots held. */
  function InUse(slots: seq<bool>): nat {
    if slots == [] then 0
    else InUse(slots[..|slots| - 1]) + (if slots[|slots| - 1] then 1 else 0)
  }

  /** The largest number of slots held in any state of the run. */
  function MostInUse(s: System, steps: seq<Step>): nat
    requires CanRun(s, steps)
    decreases |steps|
  {
    if steps == [] then InUse(s.pool.slots)
    else Max(InUse(s.pool.slots), MostInUse(Apply(s, steps[0]), steps[1..]))
  }

  lemma {:induction false} InUseAtMost(slots: seq<bool>, bound: nat)
    requires forall i :: 0 <= i < |slots| && slots[i] ==> i < bound
    ensures InUse(slots) <= bound
  {
    if slots != [] {
      var n := |slots| - 1;
      var init := slots[..n];
      if slots[n] {
        AtMostLength(init);
      } else {
        InUseAtMost(init, bound);
      }
    }
  }

  lemma {:induction false} AtMostLength(slots: seq<bool>)
    ensures InUse(slots) <= |slots|
  {
    if slots != [] { AtMostLength(slots[..|slots| - 1]); }
  }

  lemma {:induction false} PrefixInUse(slots: seq<bool>, k: nat)
    requires k <= |slots| && forall i :: 0 <= i < k ==> slots[i]
    ensures InUse(slots) >= k
  {
    if k > 0 {
      var init := slots[..|slots| - 1];
      PrefixInUse(init, if k == |slots| then k - 1 else k);
    }
  }

  /** One step never lets the mark fall behind the slots held, and raises it only to the
      number of slots held afterwards. */
  lemma StepPeak(s: System, step: Step)
    requires Inv(s) && Enabled(s, step)
    ensures var r := Apply(s, step);
            && InUse(r.pool.slots) <= r.pool.peak
            && s.pool.peak <= r.pool.peak <= Max(s.pool.peak, InUse(r.pool.slots))
  {
    StepKeepsInv(s, step);
    var r := Apply(s, step);
    InUseAtMost(r.pool.slots, r.pool.peak);
    if step.Scan? {
      TokenMeansFreeSlot(s, step.t);
      PrefixInUse(r.pool.slots, FirstFree(s.pool.slots, 0) + 1);
    }
  }

  lemma {:induction false} PeakFollowsRun(s: System, steps: seq<Step>)
    requires Inv(s) && CanRun(s, steps)
    ensures Run(s, steps).pool.peak == Max(s.pool.peak, MostInUse(s, steps))
    decreases |steps|
  {
    InUseAtMost(s.pool.slots, s.pool.peak);
    if steps != [] {
      StepPeak(s, steps[0]);
      StepKeepsInv(s, steps[0]);
      PeakFollowsRun(Apply(s, steps[0]), steps[1..]);
    }
  }

  /** Although the scan stops counting at the first free slot, the mark is the largest
      number of slots ever held at once. */
  lemma PeakIsTrueMaximum(n: nat, steps: seq<Step>)
    requires CanRun(Start(n), steps)
    ensures Run(Start(n), steps).pool.peak == MostInUse(Start(n), steps)
  {
    assert Active(Start(n)) == {};
    PeakFollowsRun(Start(n), steps);
  }

  // ----- one thread among others -----------------------------------------

  lemma {:induction false} RunConcat(s: System, a: seq<Step>, b: seq<Step>)
    requires CanRun(s, a) && CanRun(Run(s, a), b)
    ensures CanRun(s, a + b) && Run(s, a + b) == Run(Run(s, a), b)
    decreases |a|
  {
    if a == [] {
      assert a + b == b;
    } else {
      assert (a + b)[1..] == a[1..] + b;
      RunConcat(Apply(s, a[0]), a[1..], b);
    }
  }

  /** Of the steps that might come, those of threads other than `me` that can be taken. */
  function Possible(s: System, me: nat, steps: seq<Step>): seq<Step>
    decreases |steps|
  {
    if steps == [] then []
    else if steps[0].t != me && Enabled(s, steps[0]) then
      [steps[0]] + Possible(Apply(s, steps[0]), me, steps[1..])
    else Possible(s, me, steps[1..])
  }

  /** The system after the others have moved. */
  function After(s: System, me: nat, steps: seq<Step>): System
    decreases |steps|
  {
    if steps == [] then s
    else if steps[0].t != me && Enabled(s, steps[0]) then After(Apply(s, steps[0]), me, steps[1..])
    else After(s, me, steps[1..])
  }

  /** The steps of one thread in a run. */
  function Own(steps: seq<Step>, me: nat): seq<Step> {
    if steps == [] then []
    else (if steps[0].t == me then [steps[0]] else []) + Own(steps[1..], me)
  }

  lemma {:induction false} OwnConcat(a: seq<Step>, b: seq<Step>, me: nat)
    ensures Own(a + b, me) == Own(a, me) + Own(b, me)
  {
    if a == [] {
      assert a + b == b;
    } else {
      assert (a + b)[1..] == a[1..] + b;
      OwnConcat(a[1..], b, me);
      var first := if a[0].t == me then [a[0]] else [];
      assert first + (Own(a[1..], me) + Own(b, me)) == (first + Own(a[1..], me)) + Own(b, me);
    }
  }

  lemma {:induction false} OthersMove(s: System, me: nat, steps: seq<Step>)
    ensures var p := Possible(s, me, steps);
      CanRun(s, p) && Run(s, p) == After(s, me, steps) && Own(p, me) == []
    ensures PhaseOf(After(s, me, steps), me) == PhaseOf(s, me)
    ensures Inv(s) ==> Inv(After(s, me, steps))
    ensures |After(s, me, steps).pool.slots| == |s.pool.slots|
    decreases |steps|
  {
    if steps != [] {
      if steps[0].t != me && Enabled(s, steps[0]) {
        var next := Apply(s, steps[0]);
        if Inv(s) { StepKeepsInv(s, steps[0]); }
        OthersMove(next, me, steps[1..]);
        var p := Possible(next, me, steps[1..]);
        assert ([steps[0]] + p)[1..] == p;
      } else {
        OthersMove(s, me, steps[1..]);
      }
    }
  }

  /** What the others may do in front of each step of a thread. */
  datatype Moves = Moves(beforeTake: seq<Step>, beforeScan: seq<Step>, beforeClear: seq<Step>, beforeGive: seq<Step>)

  /** Acquire, hold and release by thread `me`: the states in front of its four steps. */
  function AtTake(s: System, me: nat, m: Moves): (r: System)
    requires PhaseOf(s, me) == Idle
    ensures PhaseOf(r, me) == Idle
  {
    OthersMove(s, me, m.beforeTake);
    After(s, me, m.beforeTake)
  }

  predicate GetsToken(s: System, me: nat, m: Moves)
    requires PhaseOf(s, me) == Idle
  {
    AtTake(s, me, m).pool.tokens > 0
  }

  function AtScan(s: System, me: nat, m: Moves): (r: System)
    requires PhaseOf(s, me) == Idle && GetsToken(s, me, m)
    ensures PhaseOf(r, me) == Taken
  {
    var taken := Apply(AtTake(s, me, m), Take(me));
    OthersMove(taken, me, m.beforeScan);
    After(taken, me, m.beforeScan)
  }

  function AtClear(s: System, me: nat, m: Moves): (r: System)
    requires Inv(s) && PhaseOf(s, me) == Idle && GetsToken(s, me, m)
    ensures PhaseOf(r, me) == Holding(FirstFree(AtScan(s, me, m).pool.slots, 0))
  {
    ScanFindsSlot(s, me, m);
    var holding := Apply(AtScan(s, me, m), Scan(me));
    OthersMove(holding, me, m.beforeClear);
    After(holding, me, m.beforeClear)
  }

  lemma ScanFindsSlot(s: System, me: nat, m: Moves)
    requires Inv(s) && PhaseOf(s, me) == Idle && GetsToken(s, me, m)
    ensures Inv(AtTake(s, me, m)) && Inv(AtScan(s, me, m))
    ensures FirstFree(AtScan(s, me, m).pool.slots, 0) < |AtScan(s, me, m).pool.slots| == |s.pool.slots|
  {
    OthersMove(s, me, m.beforeTake);
    StepKeepsInv(AtTake(s, me, m), Take(me));
    OthersMove(Apply(AtTake(s, me, m), Take(me)), me, m.beforeScan);
    TokenMeansFreeSlot(AtScan(s, me, m), me);
  }

  function AtGive(s: System, me: nat, m: Moves): (r: System)
    requires Inv(s) && PhaseOf(s, me) == Idle && GetsToken(s, me, m)
    ensures PhaseOf(r, me) == Cleared
  {
    var cleared := Apply(AtClear(s, me, m), Clear(me));
    OthersMove(cleared, me, m.beforeGive);
    After(cleared, me, m.beforeGive)
  }

  /** Without a token the thread leaves again at once. */
  function AfterRequest(s: System, me: nat, m: Moves): System
    requires Inv(s) && PhaseOf(s, me) == Idle
  {
    if GetsToken(s, me, m) then Apply(AtGive(s, me, m), Give(me)) else AtTake(s, me, m)
  }

  /** The run that leads there. */
  function RequestSteps(s: System, me: nat, m: Moves): seq<Step>
    requires Inv(s) && PhaseOf(s, me) == Idle
  {
    var first := Possible(s, me, m.beforeTake);
    if !GetsToken(s, me, m) then first
    else
      first
      + ([Take(me)] + Possible(Apply(AtTake(s, me, m), Take(me)), me, m.beforeScan))
      + ([Scan(me)] + Possible(Apply(AtScan(s, me, m), Scan(me)), me, m.beforeClear))
      + ([Clear(me)] + Possible(Apply(AtClear(s, me, m), Clear(me)), me, m.beforeGive))
      + [Give(me)]
  }

  lemma StepAndOthers(s: System, me: nat, step: Step, others: seq<Step>)
    requires Enabled(s, step) && step.t == me
    ensures var part := [step] + Possible(Apply(s, step), me, others);
      CanRun(s, part) && Run(s, part) == After(Apply(s, step), me, others) && Own(part, me) == [step]
  {
    var rest := Possible(Apply(s, step), me, others);
    OthersMove(Apply(s, step), me, others);
    assert ([step] + rest)[1..] == rest;
  }

  /** A run up to state `s1`, and on to `s2`. */
  lemma RunOn(s: System, a: seq<Step>, s1: System, b: seq<Step>, s2: System)
    requires CanRun(s, a) && Run(s, a) == s1 && CanRun(s1, b) && Run(s1, b) == s2
    ensures CanRun(s, a + b) && Run(s, a + b) == s2
  {
    RunConcat(s, a, b);
  }

  lemma OneStep(s: System, step: Step)
    requires Enabled(s, step)
    ensures CanRun(s, [step]) && Run(s, [step]) == Apply(s, step)
  {
    assert [step][1..] == [];
  }

  /** A request is a run in which its thread takes, scans, clears and gives once each, in
      that order, or nothing at all, whatever the others do in between. */
  lemma RequestIsRun(s: System, me: nat, m: Moves)
    requires Inv(s) && PhaseOf(s, me) == Idle
    ensures var steps := RequestSteps(s, me, m);
      && CanRun(s, steps) && Run(s, steps) == AfterRequest(s, me, m)
      && Own(steps, me) == if GetsToken(s, me, m) then [Take(me), Scan(me), Clear(me), Give(me)] else []
  {
    OthersMove(s, me, m.beforeTake);
    if GetsToken(s, me, m) {
      var a, b, c, d := AtTake(s, me, m), AtScan(s, me, m), AtClear(s, me, m), AtGive(s, me, m);
      var first := Possible(s, me, m.beforeTake);
      var second := [Take(me)] + Possible(Apply(a, Take(me)), me, m.beforeScan);
      var third := [Scan(me)] + Possible(Apply(b, Scan(me)), me, m.beforeClear);
      var fourth := [Clear(me)] + Possible(Apply(c, Clear(me)), me, m.beforeGive);
      StepAndOthers(a, me, Take(me), m.beforeScan);
      RunOn(s, first, a, second, b);
      StepAndOthers(b, me, Scan(me), m.beforeClear);
      RunOn(s, first + second, b, third, c);
      StepAndOthers(c, me, Clear(me), m.beforeGive);
      RunOn(s, first + second + third, c, fourth, d);
      OneStep(d, Give(me));
      RunOn(s, first + second + third + fourth, d, [Give(me)], Apply(d, Give(me)));
      OwnOfParts(first, second, third, fourth, me);
    }
  }

  lemma OwnOfParts(first: seq<Step>, second: seq<Step>, third: seq<Step>, fourth: seq<Step>, me: nat)
    requires Own(first, me) == [] && Own(second, me) == [Take(me)]
    requires Own(third, me) == [Scan(me)] && Own(fourth, me) == [Clear(me)]
    ensures Own(first + second + third + fourth + [Give(me)], me) == [Take(me), Scan(me), Clear(me), Give(me)]
  {
    OwnConcat(first, second, me);
    OwnConcat(first + second, third, me);
    OwnConcat(first + second + third, fourth, me);
    OwnConcat(first + second + third + fourth, [Give(me)], me);
    assert Own([Give(me)], me) == [Give(me)] + Own([], me);
  }

  /** When nobody else moves, tokens and slots are as before. */
  lemma AloneRestores(s: System, me: nat)
    requires Inv(s) && PhaseOf(s, me) == Idle
    ensures var r := AfterRequest(s, me, Moves([], [], [], []));
      && r.pool.tokens == s.pool.tokens && r.pool.slots == s.pool.slots
      && (GetsToken(s, me, Moves([], [], [], [])) <==> s.pool.tokens > 0)
  {
    var m := Moves([], [], [], []);
    if GetsToken(s, me, m) {
      ScanFindsSlot(s, me, m);
      var k := FirstFree(s.pool.slots, 0);
      assert s.pool.slots[k := true][k := false] == s.pool.slots;
    }
  }
}
