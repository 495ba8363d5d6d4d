/** The HTTP buffer pool's functions, and the request handler that uses them. */
module HttpBuffers {
  import opened HttpPool

  const WORKER_COUNT: nat := 4
  const RECV_BUFFER_SIZE: nat := 135168
  const LARGE_BUFFER_SIZE: nat := 65536

  /** What a caller is handed; all zero when it holds nothing. */
  datatype HttpBufferSet = HttpBufferSet(slot: nat, recvCapacity: nat, scratchCapacity: nat)

  const NO_BUFFERS := HttpBufferSet(0, 0, 0)

  /** `threads` is where each worker stands in the functions below, and with which slot:
      what their stacks hold. */
  class BufferPool {
    var tokens: nat
    const slotsInUse: array<bool>
    var peakSlotsInUse: nat
    var threads: map<nat, Phase>

    function System(): HttpPool.System
      reads this, slotsInUse
    {
      HttpPool.System(Pool(tokens, slotsInUse[..], peakSlotsInUse), threads)
    }

    ghost predicate Valid()
      reads this, slotsInUse
    {
      slotsInUse.Length == WORKER_COUNT
    }

    constructor ()
      ensures Valid() && fresh(slotsInUse) && System() == Start(WORKER_COUNT) && Inv(System())
    {
      tokens, peakSlotsInUse, threads := WORKER_COUNT, 0, map[];
      slotsInUse := new bool[WORKER_COUNT](_ => false);
      new;
      assert slotsInUse[..] == seq(WORKER_COUNT, _ => false);
      assert Active(System()) == {};
    }

    // ----- the four steps --------------------------------------------------

    /** k_sem_take with K_NO_WAIT. */
    method TryTake(me: nat) returns (ok: bool)
      requires Valid() && PhaseOf(System(), me) == Idle
      modifies `tokens, `threads
      ensures Valid() && (ok <==> old(tokens) > 0)
      ensures System() == if ok then Apply(old(System()), Take(me)) else old(System())
    {
      if tokens == 0 {
        return false;
      }
      tokens, threads := tokens - 1, threads[me := Taken];
      ok := true;
    }

    /** The locked scan of AcquireHttpBufferSet. */
    method LockedScan(me: nat) returns (slot: nat)
      requires Valid() && PhaseOf(System(), me) == Taken
      modifies slotsInUse, `peakSlotsInUse, `threads
      ensures Valid() && System() == Apply(old(System()), Scan(me))
      ensures slot == FirstFree(old(slotsInUse[..]), 0)
    {
      slot := WORKER_COUNT;
      var inUse := 0;
      var i := 0;
      while i < WORKER_COUNT
        invariant i <= WORKER_COUNT && inUse == i && slot == WORKER_COUNT
        invariant slotsInUse[..] == old(slotsInUse[..]) && peakSlotsInUse == old(peakSlotsInUse)
        invariant threads == old(threads)
        invariant FirstFree(slotsInUse[..], i) == FirstFree(slotsInUse[..], 0)
      {
        if slotsInUse[i] {
          inUse := inUse + 1;
          i := i + 1;
          continue;
        }
        slotsInUse[i] := true;
        slot := i;
        inUse := inUse + 1;
        break;
      }
      if inUse > peakSlotsInUse {
        peakSlotsInUse := inUse;
      }
      threads := threads[me := if slot < WORKER_COUNT then Holding(slot) else Overflow];
    }

    /** The locked part of ReleaseHttpBufferSet. */
    method LockedClear(me: nat, slot: nat)
      requires Valid() && PhaseOf(System(), me) == Holding(slot)
      modifies slotsInUse, `threads
      ensures Valid() && System() == Apply(old(System()), Clear(me))
    {
      if slot < WORKER_COUNT {
        slotsInUse[slot] := false;
      }
      threads := threads[me := Cleared];
    }

    /** k_sem_give. */
    method GiveBack(me: nat)
      requires Valid() && Enabled(System(), Give(me))
      modifies `tokens, `threads
      ensures Valid() && System() == Apply(old(System()), Give(me))
    {
      if tokens < WORKER_COUNT {
        tokens := tokens + 1;
      }
      threads := threads[me := Idle];
    }

    /** The other workers run: of the steps given, those they can take. */
    method OthersRun(me: nat, steps: seq<Step>)
      requires Valid()
      modifies this, slotsInUse
      ensures Valid() && System() == After(old(System()), me, steps)
    {
      for i := 0 to |steps|
        invariant Valid() && After(System(), me, steps[i..]) == After(old(System()), me, steps)
      {
        var step := steps[i];
        assert steps[i..][0] == step && steps[i..][1..] == steps[i + 1..];
        if step.t != me && Enabled(System(), step) {
          OtherStep(step);
        }
      }
    }

    method OtherStep(step: Step)
      requires Valid() && Enabled(System(), step)
      modifies this, slotsInUse
      ensures Valid() && System() == Apply(old(System()), step)
    {
      match step {
        case Take(t) => var _ := TryTake(t);
        case Scan(t) => var _ := LockedScan(t);
        case Clear(t) => LockedClear(t, threads[t].slot);
        case Give(t) => GiveBack(t);
      }
    }

    // ----- acquire and release -----------------------------------------------

    /** AcquireHttpBufferSet with K_NO_WAIT, the others moving in front of both steps: fails
        exactly when no token is left, and a token always comes with a slot that was free. */
    method Acquire(me: nat, m: Moves) returns (ok: bool, buffers: HttpBufferSet)
      requires Valid() && Inv(System()) && PhaseOf(System(), me) == Idle
      modifies this, slotsInUse
      ensures Valid() && (ok <==> GetsToken(old(System()), me, m))
      ensures ok ==>
        var scanned := AtScan(old(System()), me, m);
        && System() == Apply(scanned, Scan(me)) && PhaseOf(System(), me) == Holding(buffers.slot)
        && buffers.slot < WORKER_COUNT && !scanned.pool.slots[buffers.slot]
        && buffers.recvCapacity == RECV_BUFFER_SIZE && buffers.scratchCapacity == LARGE_BUFFER_SIZE
      ensures !ok ==> buffers == NO_BUFFERS && System() == AtTake(old(System()), me, m)
    {
      ghost var start := System();
      OthersRun(me, m.beforeTake);
      assert System() == AtTake(start, me, m);
      var got := TryTake(me);
      if !got {
        return false, NO_BUFFERS;
      }
      OthersRun(me, m.beforeScan);
      ScanFindsSlot(start, me, m);
      var slot := Claim(me);
      ok := slot < WORKER_COUNT;
      buffers := if ok then HttpBufferSet(slot, RECV_BUFFER_SIZE, LARGE_BUFFER_SIZE) else NO_BUFFERS;
    }

    /** The part behind the semaphore, in any pool: without a free slot the token goes back. */
    method Claim(me: nat) returns (slot: nat)
      requires Valid() && PhaseOf(System(), me) == Taken
      modifies this, slotsInUse
      ensures Valid() && slot == FirstFree(old(slotsInUse[..]), 0)
      ensures var scanned := Apply(old(System()), Scan(me));
        if slot < WORKER_COUNT then System() == scanned && PhaseOf(scanned, me) == Holding(slot)
        else Enabled(scanned, Give(me)) && System() == Apply(scanned, Give(me))
    {
      slot := LockedScan(me);
      if slot >= WORKER_COUNT {
        GiveBack(me);
      }
    }

    /** ReleaseHttpBufferSet, at the end of the request that came in state `start`. */
    method Release(me: nat, buffers: HttpBufferSet, m: Moves, ghost start: HttpPool.System)
      returns (cleared: HttpBufferSet)
      requires Valid() && Inv(start) && PhaseOf(start, me) == Idle && GetsToken(start, me, m)
      requires System() == AtClear(start, me, m) && PhaseOf(System(), me) == Holding(buffers.slot)
      modifies this, slotsInUse
      ensures Valid() && cleared == NO_BUFFERS && System() == AfterRequest(start, me, m)
      ensures System() == Apply(After(Apply(old(System()), Clear(me)), me, m.beforeGive), Give(me))
    {
      LockedClear(me, buffers.slot);
      cleared := NO_BUFFERS;
      OthersRun(me, m.beforeGive);
      assert System() == AtGive(start, me, m);
      GiveBack(me);
    }
  }

  // ----- the request handler ---------------------------------------------

  /** What the connection and the services do while a request is handled. */
  datatype Client = Client(
    received: int, headersEnd: bool, contentLength: int, bodyComplete: bool,
    isStaticGet: bool, fileSent: bool, apiHandled: bool)

  datatype Outcome =
    | Busy | NothingReceived | Malformed | TooLarge | Incomplete | FileSent | FileMissing | ApiDone | NotFound

  lemma RequestKeepsInv(s: System, me: nat, m: Moves)
    requires Inv(s) && PhaseOf(s, me) == Idle
    ensures var r, steps := AfterRequest(s, me, m), RequestSteps(s, me, m);
      && Inv(r) && PhaseOf(r, me) == Idle && CanRun(s, steps) && r == Run(s, steps)
      && Own(steps, me) == if GetsToken(s, me, m) then [Take(me), Scan(me), Clear(me), Give(me)] else []
  {
    RequestIsRun(s, me, m);
    RunKeepsInv(s, RequestSteps(s, me, m));
  }

  /** HandleClient as worker `me`, with whatever the other workers do in between: busy only
      for want of a token, and on every other path exactly the four steps of one acquire and
      one release. */
  method HandleClient(pool: BufferPool, me: nat, client: Client, m: Moves) returns (outcome: Outcome)
    requires pool.Valid() && Inv(pool.System()) && PhaseOf(pool.System(), me) == Idle
    modifies pool, pool.slotsInUse
    ensures pool.Valid() && Inv(pool.System()) && PhaseOf(pool.System(), me) == Idle
    ensures outcome == Busy <==> !GetsToken(old(pool.System()), me, m)
    ensures var steps := RequestSteps(old(pool.System()), me, m);
      && CanRun(old(pool.System()), steps) && pool.System() == Run(old(pool.System()), steps)
      && Own(steps, me) == if outcome == Busy then [] else [Take(me), Scan(me), Clear(me), Give(me)]
    ensures m == Moves([], [], [], []) ==>
      && pool.tokens == old(pool.tokens) && pool.slotsInUse[..] == old(pool.slotsInUse[..])
      && (outcome == Busy <==> old(pool.tokens) == 0)
  {
    ghost var start := pool.System();
    RequestKeepsInv(start, me, m);
    AloneRestores(start, me);
    var ok, buffers := pool.Acquire(me, m);
    if !ok {
      return Busy;
    }
    pool.OthersRun(me, m.beforeClear);
    assert pool.System() == AtClear(start, me, m);
    if client.received <= 0 {
      buffers := pool.Release(me, buffers, m, start);
      return NothingReceived;
    }
    if !client.headersEnd {
      buffers := pool.Release(me, buffers, m, start);
      return Malformed;
    }
    if client.contentLength > buffers.recvCapacity - 256 {
      buffers := pool.Release(me, buffers, m, start);
      return TooLarge;
    }
    if client.contentLength > 0 && !client.bodyComplete {
      buffers := pool.Release(me, buffers, m, start);
      return Incomplete;
    }
    if client.isStaticGet {
      if client.fileSent {
        buffers := pool.Release(me, buffers, m, start);
        return FileSent;
      }
      buffers := pool.Release(me, buffers, m, start);
      return FileMissing;
    }
    if client.apiHandled {
      buffers := pool.Release(me, buffers, m, start);
      return ApiDone;
    }
    buffers := pool.Release(me, buffers, m, start);
    outcome := NotFound;
  }
}
